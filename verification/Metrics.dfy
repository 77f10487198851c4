/**
 Coverage metrics: counting loops with saturating 32-bit counters, and the drill-down that lists the
 repositories behind each control's denominator.

 The counters and the drill-down are written independently in the source. They are proved to agree
 for every control and every list of repositories, also beyond the range of the counters.
 */
module Metrics {
  import opened Wrappers
  import opened Domain

  const U32_MAX: nat := 0xFFFF_FFFF

  function Sat(n: nat): nat { if n > U32_MAX then U32_MAX else n }

  function SatAdd(a: nat, b: nat): nat { Sat(a + b) }

  type Repo = RepositoryEvidence

  datatype RateMetric = RateMetric(numerator: nat, denominator: nat)

  // ----- What is to be counted, read off the check results

  /** At which positions of the list the repositories have a property. */
  ghost function Positions(repos: seq<Repo>, p: Repo -> bool): set<nat> {
    set i: nat | i < |repos| && p(repos[i])
  }

  /** How many repositories have a property, up to the greatest 32-bit number. */
  ghost function HowMany(repos: seq<Repo>, p: Repo -> bool): nat {
    if |Positions(repos, p)| > 4294967295 then 4294967295 else |Positions(repos, p)|
  }

  predicate PolicyBySetting(r: Repo) { r.checks.securityPolicy.EnabledBySetting? }
  predicate PolicyByFile(r: Repo) { r.checks.securityPolicy.EnabledByFile? }
  predicate NoPolicy(r: Repo) { r.checks.securityPolicy.PolicyAbsent? }
  predicate PolicyUnread(r: Repo) {
    r.checks.securityPolicy.PolicyUnobservable? || r.checks.securityPolicy.PolicyNotApplicable?
  }

  predicate PublicWithPolicy(r: Repo) { r.repository.visibility == Public && (PolicyBySetting(r) || PolicyByFile(r)) }
  predicate PublicWithoutPolicy(r: Repo) { r.repository.visibility == Public && NoPolicy(r) }
  predicate PublicUnread(r: Repo) { r.repository.visibility == Public && PolicyUnread(r) }

  predicate ActiveScanned(r: Repo) { !r.repository.archived && r.checks.secretScanning.ScanningEnabled? }
  predicate ActiveUnscanned(r: Repo) { !r.repository.archived && r.checks.secretScanning.ScanningDisabled? }
  predicate ActiveScanUnread(r: Repo) { !r.repository.archived && r.checks.secretScanning.ScanningUnobservable? }

  predicate ActiveUpdated(r: Repo) { !r.repository.archived && r.checks.dependabot.status == DependabotStatus.Enabled }
  predicate ActiveNotUpdated(r: Repo) {
    !r.repository.archived && r.checks.dependabot.status in {DependabotStatus.Paused, DependabotStatus.Disabled}
  }
  predicate ActiveUpdateUnread(r: Repo) {
    !r.repository.archived && r.checks.dependabot.status == DependabotStatus.Unknown
  }

  predicate ActiveOwned(r: Repo) {
    !r.repository.archived
    && r.checks.codeowners.status in {CodeownersStatus.Conforming, CodeownersStatus.NonConforming}
  }
  predicate ActiveUnowned(r: Repo) { !r.repository.archived && r.checks.codeowners.status == CodeownersStatus.Absent }
  predicate ActiveOwnersUnread(r: Repo) {
    !r.repository.archived && r.checks.codeowners.status == CodeownersStatus.Unknown
  }

  predicate ActiveProtected(r: Repo) { !r.repository.archived && r.checks.branchProtection.Protected? }
  predicate ActiveUnprotected(r: Repo) { !r.repository.archived && r.checks.branchProtection.Unprotected? }
  predicate ActiveProtectionUnread(r: Repo) { !r.repository.archived && r.checks.branchProtection.Unobservable? }

  predicate OpenAlerts(r: Repo) {
    r.checks.secretScanning.ScanningEnabled? && r.checks.secretScanning.openAlerts == Some(true)
  }
  predicate NoOpenAlerts(r: Repo) {
    r.checks.secretScanning.ScanningEnabled? && r.checks.secretScanning.openAlerts == Some(false)
  }
  predicate AlertsUnread(r: Repo) { !OpenAlerts(r) && !NoOpenAlerts(r) }
  predicate ActiveOpenAlerts(r: Repo) { !r.repository.archived && OpenAlerts(r) }
  predicate ActiveAlertsRead(r: Repo) { !r.repository.archived && (OpenAlerts(r) || NoOpenAlerts(r)) }

  predicate ProtectionDenied(r: Repo) {
    r.checks.branchProtection.Unobservable?
    && (r.checks.branchProtection.reason.PermissionDenied? || r.checks.branchProtection.reason.PermissionSuspected?)
  }
  predicate ProtectionUndetermined(r: Repo) { r.checks.branchProtection.Unobservable? && !ProtectionDenied(r) }

  predicate Scanned(r: Repo) { r.checks.secretScanning.ScanningEnabled? }
  predicate Unscanned(r: Repo) { r.checks.secretScanning.ScanningDisabled? }
  predicate ScanDenied(r: Repo) { r.checks.secretScanning.ScanningUnobservable? && r.checks.secretScanning.denied }
  predicate ScanUndetermined(r: Repo) {
    r.checks.secretScanning.ScanningUnobservable? && !r.checks.secretScanning.denied
  }
  predicate Updated(r: Repo) { r.checks.dependabot.status == DependabotStatus.Enabled }
  predicate UpdatesPaused(r: Repo) { r.checks.dependabot.status == DependabotStatus.Paused }
  predicate UpdatesOff(r: Repo) { r.checks.dependabot.status == DependabotStatus.Disabled }
  predicate UpdatesUnread(r: Repo) { r.checks.dependabot.status == DependabotStatus.Unknown }
  predicate IsProtected(r: Repo) { r.checks.branchProtection.Protected? }
  predicate IsUnprotected(r: Repo) { r.checks.branchProtection.Unprotected? }
  predicate ProtectionUnread(r: Repo) { r.checks.branchProtection.Unobservable? }
  predicate OwnersConform(r: Repo) { r.checks.codeowners.status == CodeownersStatus.Conforming }
  predicate OwnersDoNotConform(r: Repo) { r.checks.codeowners.status == CodeownersStatus.NonConforming }
  predicate NoOwners(r: Repo) { r.checks.codeowners.status == CodeownersStatus.Absent }
  predicate OwnersUnread(r: Repo) { r.checks.codeowners.status == CodeownersStatus.Unknown }
  predicate OwnersTruncated(r: Repo) { r.checks.codeowners.truncated }

  predicate ActiveScanDenied(r: Repo) { !r.repository.archived && ScanDenied(r) }
  predicate ActiveScanUndetermined(r: Repo) { !r.repository.archived && ScanUndetermined(r) }
  predicate ActiveProtectionDenied(r: Repo) { !r.repository.archived && ProtectionDenied(r) }
  predicate ActiveProtectionUndetermined(r: Repo) { !r.repository.archived && ProtectionUndetermined(r) }
  predicate PublicInapplicable(r: Repo) {
    r.repository.visibility == Public && r.checks.securityPolicy.PolicyNotApplicable?
  }

  /** The coverage of a control: met over met and unmet, or 0/1 when there are none and some could not be read. */
  ghost function Rate(repos: seq<Repo>, met: Repo -> bool, unmet: Repo -> bool, unread: Repo -> bool): RateMetric {
    var both := |Positions(repos, met)| + |Positions(repos, unmet)|;
    if both == 0 && Positions(repos, unread) != {} then RateMetric(0, 1)
    else RateMetric(HowMany(repos, met), if both > 4294967295 then 4294967295 else both)
  }

  lemma PositionsNext(repos: seq<Repo>, p: Repo -> bool)
    requires repos != []
    ensures var front, last := repos[..|repos| - 1], repos[|repos| - 1];
            |Positions(repos, p)| == |Positions(front, p)| + if p(last) then 1 else 0
  {
    var n := |repos| - 1;
    assert Positions(repos, p) == Positions(repos[..n], p) + if p(repos[n]) then {n} else {};
  }

  // ----- Counting

  /** How many of the repositories have the given status. */
  function Tally<S(==)>(repos: seq<Repo>, status: Repo -> S, s: S): nat {
    if repos == [] then 0
    else Tally(repos[..|repos| - 1], status, s) + (if status(repos[|repos| - 1]) == s then 1 else 0)
  }

  function Counted<T>(repos: seq<Repo>, classify: (Repo, T) -> T, start: T): T {
    if repos == [] then start
    else classify(repos[|repos| - 1], Counted(repos[..|repos| - 1], classify, start))
  }

  /** Start from empty counters and classify the repositories one by one. */
  method CountStatuses<T>(repos: seq<Repo>, classify: (Repo, T) -> T, start: T) returns (counts: T)
    ensures counts == Counted(repos, classify, start)
  {
    counts := start;
    for i := 0 to |repos|
      invariant counts == Counted(repos[..i], classify, start)
    {
      assert repos[..i + 1][..i] == repos[..i];
      counts := classify(repos[i], counts);
    }
    assert repos[..|repos|] == repos;
  }

  /** A tally over the kept repositories counts the positions of those that are kept and have the status. */
  lemma {:induction false} TallyIsPositions<S>(
      repos: seq<Repo>, keep: Repo -> bool, status: Repo -> S, s: S, p: Repo -> bool)
    requires forall r :: p(r) <==> keep(r) && status(r) == s
    ensures Tally(Filter(repos, keep), status, s) == |Positions(repos, p)|
  {
    if repos == [] {
      assert Positions(repos, p) == {};
    } else {
      var front, last := repos[..|repos| - 1], repos[|repos| - 1];
      TallyIsPositions(front, keep, status, s, p);
      PositionsNext(repos, p);
      TallyNext(Filter(front, keep), last, status, s);
    }
  }

  lemma TallyOfAll<S>(repos: seq<Repo>, status: Repo -> S, s: S, p: Repo -> bool)
    requires forall r :: p(r) <==> status(r) == s
    ensures Sat(Tally(repos, status, s)) == HowMany(repos, p)
  {
    TallyIsPositions(repos, Every, status, s, p);
    FilterEvery(repos);
  }

  predicate Every(r: Repo) { true }

  lemma {:induction false} FilterEvery(repos: seq<Repo>)
    ensures Filter(repos, Every) == repos
  {
    if repos != [] {
      FilterEvery(repos[..|repos| - 1]);
      assert repos == repos[..|repos| - 1] + [repos[|repos| - 1]];
    }
  }

  datatype PolicyBucket = ViaSetting | ViaFile | Missing | Unknown

  /** A non-applicable policy is unexpected among public repositories and is counted as unknown. */
  function PolicyBucketOf(r: Repo): PolicyBucket {
    match r.checks.securityPolicy.Status()
    case Pass => if r.checks.securityPolicy.EnabledBySetting? then ViaSetting else ViaFile
    case Fail => Missing
    case Unknown => PolicyBucket.Unknown
    case NotApplicable => PolicyBucket.Unknown
  }

  function ScanningStatusOf(r: Repo): SecretScanningStatus { r.checks.secretScanning.Status() }

  function DependabotStatusOf(r: Repo): DependabotStatus { r.checks.dependabot.status }

  function CodeownersStatusOf(r: Repo): CodeownersStatus { r.checks.codeowners.status }

  predicate IsTruncated(r: Repo) { r.checks.codeowners.truncated }

  datatype BranchStatus = BranchPass | BranchFail | BranchUnknown

  function BranchStatusOf(r: Repo): BranchStatus {
    match r.checks.branchProtection
    case Protected(_, _) => BranchPass
    case Unprotected(_, _, _) => BranchFail
    case Unobservable(_, _, _, _) => BranchUnknown
  }

  datatype PolicyCounts = PolicyCounts(viaSetting: nat, viaFile: nat, missing: nat, unknown: nat)
  datatype ScanningCounts = ScanningCounts(enabled: nat, disabled: nat, permissionDenied: nat, unknown: nat)
  datatype DependabotCounts = DependabotCounts(enabled: nat, paused: nat, disabled: nat, unknown: nat)
  datatype BranchCounts = BranchCounts(pass: nat, fail: nat, unknown: nat)
  datatype CodeownersCounts =
    CodeownersCounts(conforming: nat, nonConforming: nat, absent: nat, unknown: nat, truncated: nat)

  lemma PolicyTalliesAre(repos: seq<Repo>)
    ensures Sat(Tally(repos, PolicyBucketOf, ViaSetting)) == HowMany(repos, PolicyBySetting)
    ensures Sat(Tally(repos, PolicyBucketOf, ViaFile)) == HowMany(repos, PolicyByFile)
    ensures Sat(Tally(repos, PolicyBucketOf, Missing)) == HowMany(repos, NoPolicy)
    ensures Sat(Tally(repos, PolicyBucketOf, PolicyBucket.Unknown)) == HowMany(repos, PolicyUnread)
  {
    TallyOfAll(repos, PolicyBucketOf, ViaSetting, PolicyBySetting);
    TallyOfAll(repos, PolicyBucketOf, ViaFile, PolicyByFile);
    TallyOfAll(repos, PolicyBucketOf, Missing, NoPolicy);
    TallyOfAll(repos, PolicyBucketOf, PolicyBucket.Unknown, PolicyUnread);
  }

  method CountPolicyStatuses(publicRepos: seq<Repo>) returns (c: PolicyCounts)
    ensures c.viaSetting == Sat(Tally(publicRepos, PolicyBucketOf, ViaSetting))
    ensures c.viaFile == Sat(Tally(publicRepos, PolicyBucketOf, ViaFile))
    ensures c.missing == Sat(Tally(publicRepos, PolicyBucketOf, Missing))
    ensures c.unknown == Sat(Tally(publicRepos, PolicyBucketOf, PolicyBucket.Unknown))
    ensures c.viaSetting == HowMany(publicRepos, PolicyBySetting) && c.viaFile == HowMany(publicRepos, PolicyByFile)
    ensures c.missing == HowMany(publicRepos, NoPolicy) && c.unknown == HowMany(publicRepos, PolicyUnread)
  {
    c := PolicyCounts(0, 0, 0, 0);
    for i := 0 to |publicRepos|
      invariant c.viaSetting == Sat(Tally(publicRepos[..i], PolicyBucketOf, ViaSetting))
      invariant c.viaFile == Sat(Tally(publicRepos[..i], PolicyBucketOf, ViaFile))
      invariant c.missing == Sat(Tally(publicRepos[..i], PolicyBucketOf, Missing))
      invariant c.unknown == Sat(Tally(publicRepos[..i], PolicyBucketOf, PolicyBucket.Unknown))
    {
      assert publicRepos[..i + 1][..i] == publicRepos[..i];
      var policy := publicRepos[i].checks.securityPolicy;
      match policy.Status() {
        case Pass =>
          if policy.EnabledBySetting? {
            c := c.(viaSetting := SatAdd(c.viaSetting, 1));
          } else {
            c := c.(viaFile := SatAdd(c.viaFile, 1));
          }
        case Fail => c := c.(missing := SatAdd(c.missing, 1));
        case Unknown => c := c.(unknown := SatAdd(c.unknown, 1));
        case NotApplicable => c := c.(unknown := SatAdd(c.unknown, 1));
      }
    }
    assert publicRepos[..|publicRepos|] == publicRepos;
    PolicyTalliesAre(publicRepos);
  }

  function CountScanning(r: Repo, c: ScanningCounts): ScanningCounts {
    match ScanningStatusOf(r)
    case Enabled => c.(enabled := SatAdd(c.enabled, 1))
    case Disabled => c.(disabled := SatAdd(c.disabled, 1))
    case PermissionDenied => c.(permissionDenied := SatAdd(c.permissionDenied, 1))
    case Unknown => c.(unknown := SatAdd(c.unknown, 1))
  }

  function CountDependabot(r: Repo, c: DependabotCounts): DependabotCounts {
    match DependabotStatusOf(r)
    case Enabled => c.(enabled := SatAdd(c.enabled, 1))
    case Paused => c.(paused := SatAdd(c.paused, 1))
    case Disabled => c.(disabled := SatAdd(c.disabled, 1))
    case Unknown => c.(unknown := SatAdd(c.unknown, 1))
  }

  function CountBranch(r: Repo, c: BranchCounts): BranchCounts {
    match r.checks.branchProtection
    case Protected(_, _) => c.(pass := SatAdd(c.pass, 1))
    case Unprotected(_, _, _) => c.(fail := SatAdd(c.fail, 1))
    case Unobservable(_, _, _, _) => c.(unknown := SatAdd(c.unknown, 1))
  }

  function CountCodeowners(r: Repo, c: CodeownersCounts): CodeownersCounts {
    var d :=
      match CodeownersStatusOf(r)
      case Conforming => c.(conforming := SatAdd(c.conforming, 1))
      case NonConforming => c.(nonConforming := SatAdd(c.nonConforming, 1))
      case Absent => c.(absent := SatAdd(c.absent, 1))
      case Unknown => c.(unknown := SatAdd(c.unknown, 1));
    if r.checks.codeowners.truncated then d.(truncated := SatAdd(d.truncated, 1)) else d
  }

  /** A counter that a classification bumps exactly for one status holds that status's tally. */
  lemma {:induction false} CounterIsTally<T, S>(
      repos: seq<Repo>, classify: (Repo, T) -> T, start: T, counter: T -> nat, status: Repo -> S, s: S)
    requires counter(start) == 0
    requires forall r, c :: counter(classify(r, c)) == if status(r) == s then SatAdd(counter(c), 1) else counter(c)
    ensures counter(Counted(repos, classify, start)) == Sat(Tally(repos, status, s))
  {
    if repos != [] { CounterIsTally(repos[..|repos| - 1], classify, start, counter, status, s); }
  }

  const NO_SCANNING := ScanningCounts(0, 0, 0, 0)
  const NO_DEPENDABOT := DependabotCounts(0, 0, 0, 0)
  const NO_BRANCH := BranchCounts(0, 0, 0)
  const NO_CODEOWNERS := CodeownersCounts(0, 0, 0, 0, 0)

  lemma {:induction false} ScanningCountsAreTallies(repos: seq<Repo>)
    ensures var c := Counted(repos, CountScanning, NO_SCANNING);
            && c.enabled == Sat(Tally(repos, ScanningStatusOf, SecretScanningStatus.Enabled))
            && c.disabled == Sat(Tally(repos, ScanningStatusOf, SecretScanningStatus.Disabled))
            && c.permissionDenied == Sat(Tally(repos, ScanningStatusOf, SecretScanningStatus.PermissionDenied))
            && c.unknown == Sat(Tally(repos, ScanningStatusOf, SecretScanningStatus.Unknown))
            && c == ScanningCounts(HowMany(repos, Scanned), HowMany(repos, Unscanned),
                                   HowMany(repos, ScanDenied), HowMany(repos, ScanUndetermined))
  {
    hide Counted, Tally, HowMany, Positions;
    TallyOfAll(repos, ScanningStatusOf, SecretScanningStatus.Enabled, Scanned);
    TallyOfAll(repos, ScanningStatusOf, SecretScanningStatus.Disabled, Unscanned);
    TallyOfAll(repos, ScanningStatusOf, SecretScanningStatus.PermissionDenied, ScanDenied);
    TallyOfAll(repos, ScanningStatusOf, SecretScanningStatus.Unknown, ScanUndetermined);
    CounterIsTally(repos, CountScanning, NO_SCANNING, (c: ScanningCounts) => c.enabled,
                   ScanningStatusOf, SecretScanningStatus.Enabled);
    CounterIsTally(repos, CountScanning, NO_SCANNING, (c: ScanningCounts) => c.disabled,
                   ScanningStatusOf, SecretScanningStatus.Disabled);
    CounterIsTally(repos, CountScanning, NO_SCANNING, (c: ScanningCounts) => c.permissionDenied,
                   ScanningStatusOf, SecretScanningStatus.PermissionDenied);
    CounterIsTally(repos, CountScanning, NO_SCANNING, (c: ScanningCounts) => c.unknown,
                   ScanningStatusOf, SecretScanningStatus.Unknown);
  }

  lemma {:induction false} DependabotCountsAreTallies(repos: seq<Repo>)
    ensures var c := Counted(repos, CountDependabot, NO_DEPENDABOT);
            && c.enabled == Sat(Tally(repos, DependabotStatusOf, DependabotStatus.Enabled))
            && c.paused == Sat(Tally(repos, DependabotStatusOf, DependabotStatus.Paused))
            && c.disabled == Sat(Tally(repos, DependabotStatusOf, DependabotStatus.Disabled))
            && c.unknown == Sat(Tally(repos, DependabotStatusOf, DependabotStatus.Unknown))
            && c == DependabotCounts(HowMany(repos, Updated), HowMany(repos, UpdatesPaused),
                                     HowMany(repos, UpdatesOff), HowMany(repos, UpdatesUnread))
  {
    hide Counted, Tally, HowMany, Positions;
    TallyOfAll(repos, DependabotStatusOf, DependabotStatus.Enabled, Updated);
    TallyOfAll(repos, DependabotStatusOf, DependabotStatus.Paused, UpdatesPaused);
    TallyOfAll(repos, DependabotStatusOf, DependabotStatus.Disabled, UpdatesOff);
    TallyOfAll(repos, DependabotStatusOf, DependabotStatus.Unknown, UpdatesUnread);
    CounterIsTally(repos, CountDependabot, NO_DEPENDABOT, (c: DependabotCounts) => c.enabled,
                   DependabotStatusOf, DependabotStatus.Enabled);
    CounterIsTally(repos, CountDependabot, NO_DEPENDABOT, (c: DependabotCounts) => c.paused,
                   DependabotStatusOf, DependabotStatus.Paused);
    CounterIsTally(repos, CountDependabot, NO_DEPENDABOT, (c: DependabotCounts) => c.disabled,
                   DependabotStatusOf, DependabotStatus.Disabled);
    CounterIsTally(repos, CountDependabot, NO_DEPENDABOT, (c: DependabotCounts) => c.unknown,
                   DependabotStatusOf, DependabotStatus.Unknown);
  }

  lemma {:induction false} BranchCountsAreTallies(repos: seq<Repo>)
    ensures var c := Counted(repos, CountBranch, NO_BRANCH);
            && c.pass == Sat(Tally(repos, BranchStatusOf, BranchPass))
            && c.fail == Sat(Tally(repos, BranchStatusOf, BranchFail))
            && c.unknown == Sat(Tally(repos, BranchStatusOf, BranchUnknown))
            && c == BranchCounts(HowMany(repos, IsProtected), HowMany(repos, IsUnprotected),
                                 HowMany(repos, ProtectionUnread))
  {
    hide Counted, Tally, HowMany, Positions;
    TallyOfAll(repos, BranchStatusOf, BranchPass, IsProtected);
    TallyOfAll(repos, BranchStatusOf, BranchFail, IsUnprotected);
    TallyOfAll(repos, BranchStatusOf, BranchUnknown, ProtectionUnread);
    CounterIsTally(repos, CountBranch, NO_BRANCH, (c: BranchCounts) => c.pass,
                   BranchStatusOf, BranchPass);
    CounterIsTally(repos, CountBranch, NO_BRANCH, (c: BranchCounts) => c.fail,
                   BranchStatusOf, BranchFail);
    CounterIsTally(repos, CountBranch, NO_BRANCH, (c: BranchCounts) => c.unknown,
                   BranchStatusOf, BranchUnknown);
  }

  lemma {:induction false} CodeownersCountsAreTallies(repos: seq<Repo>)
    ensures var c := Counted(repos, CountCodeowners, NO_CODEOWNERS);
            && c.conforming == Sat(Tally(repos, CodeownersStatusOf, CodeownersStatus.Conforming))
            && c.nonConforming == Sat(Tally(repos, CodeownersStatusOf, CodeownersStatus.NonConforming))
            && c.absent == Sat(Tally(repos, CodeownersStatusOf, CodeownersStatus.Absent))
            && c.unknown == Sat(Tally(repos, CodeownersStatusOf, CodeownersStatus.Unknown))
            && c.truncated == Sat(Tally(repos, IsTruncated, true))
            && c == CodeownersCounts(HowMany(repos, OwnersConform), HowMany(repos, OwnersDoNotConform),
                                     HowMany(repos, NoOwners), HowMany(repos, OwnersUnread),
                                     HowMany(repos, OwnersTruncated))
  {
    hide Counted, Tally, HowMany, Positions;
    TruncatedIsTally(repos);
    TallyOfAll(repos, CodeownersStatusOf, CodeownersStatus.Conforming, OwnersConform);
    TallyOfAll(repos, CodeownersStatusOf, CodeownersStatus.NonConforming, OwnersDoNotConform);
    TallyOfAll(repos, CodeownersStatusOf, CodeownersStatus.Absent, NoOwners);
    TallyOfAll(repos, CodeownersStatusOf, CodeownersStatus.Unknown, OwnersUnread);
    TallyOfAll(repos, IsTruncated, true, OwnersTruncated);
    CounterIsTally(repos, CountCodeowners, NO_CODEOWNERS, (c: CodeownersCounts) => c.conforming,
                   CodeownersStatusOf, CodeownersStatus.Conforming);
    CounterIsTally(repos, CountCodeowners, NO_CODEOWNERS, (c: CodeownersCounts) => c.nonConforming,
                   CodeownersStatusOf, CodeownersStatus.NonConforming);
    CounterIsTally(repos, CountCodeowners, NO_CODEOWNERS, (c: CodeownersCounts) => c.absent,
                   CodeownersStatusOf, CodeownersStatus.Absent);
    CounterIsTally(repos, CountCodeowners, NO_CODEOWNERS, (c: CodeownersCounts) => c.unknown,
                   CodeownersStatusOf, CodeownersStatus.Unknown);
  }

  lemma {:induction false} TruncatedIsTally(repos: seq<Repo>)
    ensures Counted(repos, CountCodeowners, NO_CODEOWNERS).truncated == Sat(Tally(repos, IsTruncated, true))
  {
    CounterIsTally(repos, CountCodeowners, NO_CODEOWNERS, (c: CodeownersCounts) => c.truncated,
                   IsTruncated, true);
  }

  // ----- Coverage

  datatype ExclusionReason = PermissionDenied | Unknown | NotApplicable | Other

  datatype ExclusionTally = ExclusionTally(permissionDenied: nat, unknown: nat, notApplicable: nat, other: nat) {
    predicate HasMeasurementFailure() { permissionDenied > 0 || unknown > 0 || other > 0 }

    function Record(reason: ExclusionReason): ExclusionTally {
      match reason
      case PermissionDenied => this.(permissionDenied := SatAdd(permissionDenied, 1))
      case Unknown => this.(unknown := SatAdd(unknown, 1))
      case NotApplicable => this.(notApplicable := SatAdd(notApplicable, 1))
      case Other => this.(other := SatAdd(other, 1))
    }
  }

  const NO_EXCLUSIONS := ExclusionTally(0, 0, 0, 0)

  /** Why branch protection could not be scored, if it could not. */
  function BranchExclusion(r: Repo): Option<ExclusionReason> {
    match r.checks.branchProtection
    case Unobservable(_, reason, _, _) =>
      Some(if reason.PermissionDenied? || reason.PermissionSuspected? then ExclusionReason.PermissionDenied
           else ExclusionReason.Other)
    case _ => None
  }

  lemma ExclusionTalliesAre(repos: seq<Repo>)
    ensures Sat(Tally(repos, BranchExclusion, Some(ExclusionReason.PermissionDenied)))
         == HowMany(repos, ProtectionDenied)
    ensures Sat(Tally(repos, BranchExclusion, Some(ExclusionReason.Other))) == HowMany(repos, ProtectionUndetermined)
  {
    TallyOfAll(repos, BranchExclusion, Some(ExclusionReason.PermissionDenied), ProtectionDenied);
    TallyOfAll(repos, BranchExclusion, Some(ExclusionReason.Other), ProtectionUndetermined);
  }

  method CountBranchExclusions(active: seq<Repo>) returns (tally: ExclusionTally)
    ensures tally.permissionDenied == Sat(Tally(active, BranchExclusion, Some(ExclusionReason.PermissionDenied)))
    ensures tally.other == Sat(Tally(active, BranchExclusion, Some(ExclusionReason.Other)))
    ensures tally.unknown == 0 && tally.notApplicable == 0
    ensures tally.permissionDenied == HowMany(active, ProtectionDenied)
    ensures tally.other == HowMany(active, ProtectionUndetermined)
    ensures tally.HasMeasurementFailure() <==> exists r :: r in active && r.checks.branchProtection.Unobservable?
  {
    tally := NO_EXCLUSIONS;
    for i := 0 to |active|
      invariant tally.permissionDenied
             == Sat(Tally(active[..i], BranchExclusion, Some(ExclusionReason.PermissionDenied)))
      invariant tally.other == Sat(Tally(active[..i], BranchExclusion, Some(ExclusionReason.Other)))
      invariant tally.unknown == 0 && tally.notApplicable == 0
      invariant tally.HasMeasurementFailure() <==>
                  exists j :: 0 <= j < i && active[j].checks.branchProtection.Unobservable?
    {
      assert active[..i + 1][..i] == active[..i];
      var reason := BranchExclusion(active[i]);
      if reason.Some? {
        tally := tally.Record(reason.value);
      }
    }
    assert active[..|active|] == active;
    ExclusionTalliesAre(active);
  }

  /** A rate with the floor for a control that applies but could not be measured anywhere. */
  function CoverageMetric(pass: nat, fail: nat, tally: ExclusionTally): RateMetric {
    var denominator := SatAdd(pass, fail);
    if denominator == 0 && tally.HasMeasurementFailure() then RateMetric(0, 1) else RateMetric(pass, denominator)
  }

  datatype CoverageControl = SecurityPolicy | SecretScanning | Dependabot | Codeowners | BranchProtection

  datatype CoverageMetrics = CoverageMetrics(
    securityPolicy: RateMetric, secretScanning: RateMetric, dependabot: RateMetric,
    codeowners: RateMetric, branchProtection: RateMetric, openSecretAlerts: RateMetric)
  {
    function For(control: CoverageControl): RateMetric {
      match control
      case SecurityPolicy => securityPolicy
      case SecretScanning => secretScanning
      case Dependabot => dependabot
      case Codeowners => codeowners
      case BranchProtection => branchProtection
    }
  }

  predicate IsActive(r: Repo) { !r.repository.archived }

  predicate IsPublic(r: Repo) { r.repository.visibility == Public }

  function Filter(repos: seq<Repo>, keep: Repo -> bool): seq<Repo> {
    if repos == [] then []
    else
      var rest, last := Filter(repos[..|repos| - 1], keep), repos[|repos| - 1];
      if keep(last) then rest + [last] else rest
  }

  // ----- Open secret alerts

  datatype AlertBucket = WithOpenAlerts | WithoutOpenAlerts | Unobserved

  function AlertBucketOf(r: Repo): AlertBucket {
    var ss := r.checks.secretScanning;
    if ss.AlertsObservable() && ss.Status() == SecretScanningStatus.Enabled then
      if ss.HasOpenAlerts() == Some(true) then WithOpenAlerts
      else if ss.HasOpenAlerts() == Some(false) then WithoutOpenAlerts
      else Unobserved
    else Unobserved
  }

  datatype AlertCounts = AlertCounts(withOpen: nat, withoutOpen: nat, unobservable: nat)

  lemma AlertTalliesAre(repos: seq<Repo>)
    ensures Sat(Tally(repos, AlertBucketOf, WithOpenAlerts)) == HowMany(repos, OpenAlerts)
    ensures Sat(Tally(repos, AlertBucketOf, WithoutOpenAlerts)) == HowMany(repos, NoOpenAlerts)
    ensures Sat(Tally(repos, AlertBucketOf, Unobserved)) == HowMany(repos, AlertsUnread)
  {
    TallyOfAll(repos, AlertBucketOf, WithOpenAlerts, OpenAlerts);
    TallyOfAll(repos, AlertBucketOf, WithoutOpenAlerts, NoOpenAlerts);
    TallyOfAll(repos, AlertBucketOf, Unobserved, AlertsUnread);
  }

  method CountSecretAlerts(active: seq<Repo>) returns (c: AlertCounts)
    ensures c.withOpen == Sat(Tally(active, AlertBucketOf, WithOpenAlerts))
    ensures c.withoutOpen == Sat(Tally(active, AlertBucketOf, WithoutOpenAlerts))
    ensures c.unobservable == Sat(Tally(active, AlertBucketOf, Unobserved))
    ensures c.withOpen == HowMany(active, OpenAlerts) && c.withoutOpen == HowMany(active, NoOpenAlerts)
    ensures c.unobservable == HowMany(active, AlertsUnread)
  {
    c := AlertCounts(0, 0, 0);
    for i := 0 to |active|
      invariant c.withOpen == Sat(Tally(active[..i], AlertBucketOf, WithOpenAlerts))
      invariant c.withoutOpen == Sat(Tally(active[..i], AlertBucketOf, WithoutOpenAlerts))
      invariant c.unobservable == Sat(Tally(active[..i], AlertBucketOf, Unobserved))
    {
      assert active[..i + 1][..i] == active[..i];
      var ss := active[i].checks.secretScanning;
      if ss.AlertsObservable() && ss.Status() == SecretScanningStatus.Enabled {
        if ss.HasOpenAlerts() == Some(true) {
          c := c.(withOpen := SatAdd(c.withOpen, 1));
        } else if ss.HasOpenAlerts() == Some(false) {
          c := c.(withoutOpen := SatAdd(c.withoutOpen, 1));
        } else {
          c := c.(unobservable := SatAdd(c.unobservable, 1));
        }
      } else {
        c := c.(unobservable := SatAdd(c.unobservable, 1));
      }
    }
    assert active[..|active|] == active;
    AlertTalliesAre(active);
  }

  /** Scanning is enabled and its alerts can be read. */
  predicate IsAlertObservable(r: Repo) {
    var ss := r.checks.secretScanning;
    ss.Status() == SecretScanningStatus.Enabled && ss.AlertsObservable() && ss.HasOpenAlerts().Some?
  }

  /** The three alert buckets partition the active repositories; numerator and denominator share one gate. */
  lemma {:induction false} AlertBucketsPartition(active: seq<Repo>)
    ensures Tally(active, AlertBucketOf, WithOpenAlerts) + Tally(active, AlertBucketOf, WithoutOpenAlerts)
            + Tally(active, AlertBucketOf, Unobserved) == |active|
    ensures Tally(active, AlertBucketOf, WithOpenAlerts) + Tally(active, AlertBucketOf, WithoutOpenAlerts)
         == |Filter(active, IsAlertObservable)|
  {
    if active != [] {
      AlertBucketsPartition(active[..|active| - 1]);
      var last := active[|active| - 1];
      match last.checks.secretScanning.HasOpenAlerts()
      case None =>
      case Some(open) => assert open == true || open == false;
    }
  }

  // ----- The drill-down

  datatype UnmeasuredReason = Denied | Undetermined | Inapplicable

  datatype Membership = Met | Unmet | Excluded(reason: UnmeasuredReason)

  predicate InPopulation(control: CoverageControl, r: Repo) {
    if control == SecurityPolicy then IsPublic(r) else IsActive(r)
  }

  function Classify(control: CoverageControl, r: Repo): Membership {
    match control
    case SecurityPolicy =>
      (match r.checks.securityPolicy.Status()
       case Pass => Met
       case Fail => Unmet
       case Unknown => Excluded(Undetermined)
       case NotApplicable => Excluded(Inapplicable))
    case SecretScanning =>
      (match r.checks.secretScanning.Status()
       case Enabled => Met
       case Disabled => Unmet
       case PermissionDenied => Excluded(Denied)
       case Unknown => Excluded(Undetermined))
    case Dependabot =>
      (match r.checks.dependabot.status
       case Enabled => Met
       case Paused => Unmet
       case Disabled => Unmet
       case Unknown => Excluded(Undetermined))
    case Codeowners =>
      (match r.checks.codeowners.status
       case Conforming => Met
       case NonConforming => Met
       case Absent => Unmet
       case Unknown => Excluded(Undetermined))
    case BranchProtection =>
      (match r.checks.branchProtection
       case Protected(_, _) => Met
       case Unprotected(_, _, _) => Unmet
       case Unobservable(_, reason, _, _) =>
         Excluded(if reason.PermissionDenied? || reason.PermissionSuspected? then Denied else Undetermined))
  }

  function DenominatorPopulation(control: CoverageControl, repos: seq<Repo>): seq<(Repo, Membership)> {
    if repos == [] then []
    else
      var rest, last := DenominatorPopulation(control, repos[..|repos| - 1]), repos[|repos| - 1];
      if InPopulation(control, last) then rest + [(last, Classify(control, last))] else rest
  }

  function CountWhere(population: seq<(Repo, Membership)>, where: Membership -> bool): nat {
    if population == [] then 0
    else CountWhere(population[..|population| - 1], where) + (if where(population[|population| - 1].1) then 1 else 0)
  }

  predicate IsEligible(m: Membership) { !m.Excluded? }
  predicate IsMet(m: Membership) { m == Met }
  predicate IsUnmet(m: Membership) { m == Unmet }
  predicate IsExcluded(m: Membership) { m.Excluded? }
  predicate IsDenied(m: Membership) { m == Excluded(Denied) }
  predicate IsUndetermined(m: Membership) { m == Excluded(Undetermined) }
  predicate IsInapplicable(m: Membership) { m == Excluded(Inapplicable) }

  function DenominatorRepoCount(population: seq<(Repo, Membership)>): nat { Sat(CountWhere(population, IsEligible)) }

  function DenominatorMetCount(population: seq<(Repo, Membership)>): nat { Sat(CountWhere(population, IsMet)) }

  // ----- Agreement

  ghost function Count(control: CoverageControl, repos: seq<Repo>, where: Membership -> bool): nat {
    CountWhere(DenominatorPopulation(control, repos), where)
  }

  ghost predicate HasExcluded(population: seq<(Repo, Membership)>) {
    exists i :: 0 <= i < |population| && population[i].1.Excluded?
  }

  lemma {:induction false} EligibleIsMetOrUnmet(population: seq<(Repo, Membership)>)
    ensures CountWhere(population, IsEligible) == CountWhere(population, IsMet) + CountWhere(population, IsUnmet)
    ensures CountWhere(population, IsExcluded) > 0 <==> HasExcluded(population)
  {
    if population != [] {
      var n := |population| - 1;
      EligibleIsMetOrUnmet(population[..n]);
      if HasExcluded(population) {
        var i :| 0 <= i < |population| && population[i].1.Excluded?;
        assert i < n ==> population[..n][i] == population[i];
      }
      if HasExcluded(population[..n]) {
        var i :| 0 <= i < n && population[..n][i].1.Excluded?;
        assert population[i] == population[..n][i];
      }
    }
  }

  /** Memberships of one kind are counted by the tally of the one status that yields them. */
  lemma {:induction false} DrillDownOne<S>(
      control: CoverageControl, repos: seq<Repo>, keep: Repo -> bool, where: Membership -> bool,
      status: Repo -> S, s: S)
    requires forall r :: keep(r) == InPopulation(control, r)
    requires forall r :: where(Classify(control, r)) <==> status(r) == s
    ensures Count(control, repos, where) == Tally(Filter(repos, keep), status, s)
  {
    if repos != [] {
      var front, last := repos[..|repos| - 1], repos[|repos| - 1];
      DrillDownOne(control, front, keep, where, status, s);
      CountNext(DenominatorPopulation(control, front), (last, Classify(control, last)), where);
      TallyNext(Filter(front, keep), last, status, s);
    }
  }

  /** The same for a kind of membership that two statuses yield. */
  lemma {:induction false} DrillDownTwo<S>(
      control: CoverageControl, repos: seq<Repo>, keep: Repo -> bool, where: Membership -> bool,
      status: Repo -> S, s: S, t: S)
    requires s != t && forall r :: keep(r) == InPopulation(control, r)
    requires forall r :: where(Classify(control, r)) <==> status(r) == s || status(r) == t
    ensures Count(control, repos, where)
         == Tally(Filter(repos, keep), status, s) + Tally(Filter(repos, keep), status, t)
  {
    if repos != [] {
      var front, last := repos[..|repos| - 1], repos[|repos| - 1];
      DrillDownTwo(control, front, keep, where, status, s, t);
      CountNext(DenominatorPopulation(control, front), (last, Classify(control, last)), where);
      TallyNext(Filter(front, keep), last, status, s);
      TallyNext(Filter(front, keep), last, status, t);
    }
  }

  lemma CountNext(population: seq<(Repo, Membership)>, next: (Repo, Membership), where: Membership -> bool)
    ensures CountWhere(population + [next], where) == CountWhere(population, where) + if where(next.1) then 1 else 0
  {
    assert (population + [next])[..|population|] == population;
  }

  lemma TallyNext<S>(repos: seq<Repo>, next: Repo, status: Repo -> S, s: S)
    ensures Tally(repos + [next], status, s) == Tally(repos, status, s) + if status(next) == s then 1 else 0
  {
    assert (repos + [next])[..|repos|] == repos;
  }

  /** The counters and the drill-down of the policy count the same repositories. */
  lemma PolicyNumbers(repos: seq<Repo>) returns (setting: nat, file: nat, missing: nat, unknown: nat)
    ensures var pop := Filter(repos, IsPublic);
            && setting == Tally(pop, PolicyBucketOf, ViaSetting) && file == Tally(pop, PolicyBucketOf, ViaFile)
            && missing == Tally(pop, PolicyBucketOf, Missing)
            && unknown == Tally(pop, PolicyBucketOf, PolicyBucket.Unknown)
    ensures Count(SecurityPolicy, repos, IsMet) == setting + file
    ensures Count(SecurityPolicy, repos, IsUnmet) == missing
    ensures Count(SecurityPolicy, repos, IsExcluded) == unknown
  {
    var pop := Filter(repos, IsPublic);
    setting, file := Tally(pop, PolicyBucketOf, ViaSetting), Tally(pop, PolicyBucketOf, ViaFile);
    missing, unknown := Tally(pop, PolicyBucketOf, Missing), Tally(pop, PolicyBucketOf, PolicyBucket.Unknown);
    DrillDownTwo(SecurityPolicy, repos, IsPublic, IsMet, PolicyBucketOf, ViaSetting, ViaFile);
    DrillDownOne(SecurityPolicy, repos, IsPublic, IsUnmet, PolicyBucketOf, Missing);
    DrillDownOne(SecurityPolicy, repos, IsPublic, IsExcluded, PolicyBucketOf, PolicyBucket.Unknown);
  }

  lemma ScanningNumbers(repos: seq<Repo>, c: ScanningCounts)
    returns (enabled: nat, disabled: nat, denied: nat, unknown: nat)
    requires c == Counted(Filter(repos, IsActive), CountScanning, NO_SCANNING)
    ensures c == ScanningCounts(Sat(enabled), Sat(disabled), Sat(denied), Sat(unknown))
    ensures Count(SecretScanning, repos, IsMet) == enabled
    ensures Count(SecretScanning, repos, IsUnmet) == disabled
    ensures Count(SecretScanning, repos, IsExcluded) == denied + unknown
  {
    var pop := Filter(repos, IsActive);
    enabled := Tally(pop, ScanningStatusOf, SecretScanningStatus.Enabled);
    disabled := Tally(pop, ScanningStatusOf, SecretScanningStatus.Disabled);
    denied := Tally(pop, ScanningStatusOf, SecretScanningStatus.PermissionDenied);
    unknown := Tally(pop, ScanningStatusOf, SecretScanningStatus.Unknown);
    ScanningCountsAreTallies(pop);
    DrillDownOne(SecretScanning, repos, IsActive, IsMet, ScanningStatusOf, SecretScanningStatus.Enabled);
    DrillDownOne(SecretScanning, repos, IsActive, IsUnmet, ScanningStatusOf, SecretScanningStatus.Disabled);
    DrillDownTwo(SecretScanning, repos, IsActive, IsExcluded, ScanningStatusOf,
                 SecretScanningStatus.PermissionDenied, SecretScanningStatus.Unknown);
  }

  lemma DependabotNumbers(repos: seq<Repo>, c: DependabotCounts)
    returns (enabled: nat, paused: nat, disabled: nat, unknown: nat)
    requires c == Counted(Filter(repos, IsActive), CountDependabot, NO_DEPENDABOT)
    ensures c == DependabotCounts(Sat(enabled), Sat(paused), Sat(disabled), Sat(unknown))
    ensures Count(Dependabot, repos, IsMet) == enabled
    ensures Count(Dependabot, repos, IsUnmet) == paused + disabled
    ensures Count(Dependabot, repos, IsExcluded) == unknown
  {
    var pop := Filter(repos, IsActive);
    enabled := Tally(pop, DependabotStatusOf, DependabotStatus.Enabled);
    paused := Tally(pop, DependabotStatusOf, DependabotStatus.Paused);
    disabled := Tally(pop, DependabotStatusOf, DependabotStatus.Disabled);
    unknown := Tally(pop, DependabotStatusOf, DependabotStatus.Unknown);
    DependabotCountsAreTallies(pop);
    DrillDownOne(Dependabot, repos, IsActive, IsMet, DependabotStatusOf, DependabotStatus.Enabled);
    DrillDownTwo(Dependabot, repos, IsActive, IsUnmet, DependabotStatusOf,
                 DependabotStatus.Paused, DependabotStatus.Disabled);
    DrillDownOne(Dependabot, repos, IsActive, IsExcluded, DependabotStatusOf, DependabotStatus.Unknown);
  }

  lemma CodeownersNumbers(repos: seq<Repo>, c: CodeownersCounts)
    returns (conforming: nat, other: nat, absent: nat, unknown: nat)
    requires c == Counted(Filter(repos, IsActive), CountCodeowners, NO_CODEOWNERS)
    ensures c == CodeownersCounts(Sat(conforming), Sat(other), Sat(absent), Sat(unknown), c.truncated)
    ensures Count(Codeowners, repos, IsMet) == conforming + other
    ensures Count(Codeowners, repos, IsUnmet) == absent
    ensures Count(Codeowners, repos, IsExcluded) == unknown
  {
    var pop := Filter(repos, IsActive);
    conforming := Tally(pop, CodeownersStatusOf, CodeownersStatus.Conforming);
    other := Tally(pop, CodeownersStatusOf, CodeownersStatus.NonConforming);
    absent := Tally(pop, CodeownersStatusOf, CodeownersStatus.Absent);
    unknown := Tally(pop, CodeownersStatusOf, CodeownersStatus.Unknown);
    CodeownersCountsAreTallies(pop);
    DrillDownTwo(Codeowners, repos, IsActive, IsMet, CodeownersStatusOf,
                 CodeownersStatus.Conforming, CodeownersStatus.NonConforming);
    DrillDownOne(Codeowners, repos, IsActive, IsUnmet, CodeownersStatusOf, CodeownersStatus.Absent);
    DrillDownOne(Codeowners, repos, IsActive, IsExcluded, CodeownersStatusOf, CodeownersStatus.Unknown);
  }

  lemma {:induction false} BranchDrillDown(repos: seq<Repo>)
    ensures var pop := Filter(repos, IsActive);
            && Count(BranchProtection, repos, IsMet) == Tally(pop, BranchStatusOf, BranchPass)
            && Count(BranchProtection, repos, IsUnmet) == Tally(pop, BranchStatusOf, BranchFail)
            && (Count(BranchProtection, repos, IsExcluded) > 0 <==>
                  exists r :: r in pop && r.checks.branchProtection.Unobservable?)
  {
    DrillDownOne(BranchProtection, repos, IsActive, IsMet, BranchStatusOf, BranchPass);
    DrillDownOne(BranchProtection, repos, IsActive, IsUnmet, BranchStatusOf, BranchFail);
    DrillDownOne(BranchProtection, repos, IsActive, IsExcluded, BranchStatusOf, BranchUnknown);
    TallyIsPositive(Filter(repos, IsActive), BranchStatusOf, BranchUnknown);
  }

  lemma {:induction false} TallyIsPositive<S>(repos: seq<Repo>, status: Repo -> S, s: S)
    ensures Tally(repos, status, s) > 0 <==> exists r :: r in repos && status(r) == s
  {
    if repos != [] {
      var n := |repos| - 1;
      TallyIsPositive(repos[..n], status, s);
      assert repos == repos[..n] + [repos[n]];
    }
  }

  /** The metric the drill-down predicts: its counts, with the floor when all it finds is excluded. */
  ghost function DrillDownMetric(control: CoverageControl, repos: seq<Repo>): RateMetric {
    var population := DenominatorPopulation(control, repos);
    if DenominatorRepoCount(population) == 0 && HasExcluded(population)
    then RateMetric(0, 1)
    else RateMetric(DenominatorMetCount(population), DenominatorRepoCount(population))
  }

  /** A metric built from saturated pass and fail counts is the drill-down's. */
  lemma MetricAgrees(control: CoverageControl, repos: seq<Repo>, pass: nat, fail: nat, tally: ExclusionTally)
    requires pass == Sat(Count(control, repos, IsMet)) && fail == Sat(Count(control, repos, IsUnmet))
    requires tally.HasMeasurementFailure() <==> Count(control, repos, IsExcluded) > 0
    ensures CoverageMetric(pass, fail, tally) == DrillDownMetric(control, repos)
  {
    EligibleIsMetOrUnmet(DenominatorPopulation(control, repos));
  }

  /** What the drill-down counts are the positions of the repositories of the kind. */
  lemma {:induction false} CountIsPositions(
      control: CoverageControl, repos: seq<Repo>, where: Membership -> bool, p: Repo -> bool)
    requires forall r :: p(r) <==> InPopulation(control, r) && where(Classify(control, r))
    ensures Count(control, repos, where) == |Positions(repos, p)|
  {
    if repos == [] {
      assert Positions(repos, p) == {};
    } else {
      var front, last := repos[..|repos| - 1], repos[|repos| - 1];
      CountIsPositions(control, front, where, p);
      PositionsNext(repos, p);
      CountNext(DenominatorPopulation(control, front), (last, Classify(control, last)), where);
    }
  }

  /** The drill-down's metric is the rate of the repositories that meet the control, do not, or were not read. */
  lemma DrillDownIsRate(
      control: CoverageControl, repos: seq<Repo>, met: Repo -> bool, unmet: Repo -> bool, unread: Repo -> bool)
    requires forall r :: met(r) <==> InPopulation(control, r) && Classify(control, r) == Met
    requires forall r :: unmet(r) <==> InPopulation(control, r) && Classify(control, r) == Unmet
    requires forall r :: unread(r) <==> InPopulation(control, r) && Classify(control, r).Excluded?
    ensures DrillDownMetric(control, repos) == Rate(repos, met, unmet, unread)
  {
    CountIsPositions(control, repos, IsMet, met);
    CountIsPositions(control, repos, IsUnmet, unmet);
    CountIsPositions(control, repos, IsExcluded, unread);
    EligibleIsMetOrUnmet(DenominatorPopulation(control, repos));
    if Positions(repos, unread) == {} { assert |Positions(repos, unread)| == 0; }
  }

  /** The counters and the drill-down leave repositories out for the same reasons. */
  lemma ScanningReasonsAgree(repos: seq<Repo>)
    ensures var c := Counted(Filter(repos, IsActive), CountScanning, NO_SCANNING);
            && c.permissionDenied == Sat(Count(SecretScanning, repos, IsDenied)) == HowMany(repos, ActiveScanDenied)
            && c.unknown == Sat(Count(SecretScanning, repos, IsUndetermined))
                         == HowMany(repos, ActiveScanUndetermined)
  {
    hide Counted, Tally, CountWhere, DenominatorPopulation, Filter, Positions;
    ScanningCountsAreTallies(Filter(repos, IsActive));
    DrillDownOne(SecretScanning, repos, IsActive, IsDenied, ScanningStatusOf, SecretScanningStatus.PermissionDenied);
    DrillDownOne(SecretScanning, repos, IsActive, IsUndetermined, ScanningStatusOf, SecretScanningStatus.Unknown);
    CountIsPositions(SecretScanning, repos, IsDenied, ActiveScanDenied);
    CountIsPositions(SecretScanning, repos, IsUndetermined, ActiveScanUndetermined);
  }

  lemma BranchReasonsAgree(repos: seq<Repo>)
    ensures var active := Filter(repos, IsActive);
            && Sat(Tally(active, BranchExclusion, Some(ExclusionReason.PermissionDenied)))
            == Sat(Count(BranchProtection, repos, IsDenied)) == HowMany(repos, ActiveProtectionDenied)
            && Sat(Tally(active, BranchExclusion, Some(ExclusionReason.Other)))
            == Sat(Count(BranchProtection, repos, IsUndetermined)) == HowMany(repos, ActiveProtectionUndetermined)
  {
    DrillDownOne(BranchProtection, repos, IsActive, IsDenied, BranchExclusion, Some(ExclusionReason.PermissionDenied));
    DrillDownOne(BranchProtection, repos, IsActive, IsUndetermined, BranchExclusion, Some(ExclusionReason.Other));
    CountIsPositions(BranchProtection, repos, IsDenied, ActiveProtectionDenied);
    CountIsPositions(BranchProtection, repos, IsUndetermined, ActiveProtectionUndetermined);
  }

  /** The counters file inapplicable policies under unknown; the drill-down tells them apart. */
  lemma InapplicablePoliciesAreTold(repos: seq<Repo>)
    ensures Count(SecurityPolicy, repos, IsInapplicable) == |Positions(repos, PublicInapplicable)|
    ensures Count(SecurityPolicy, repos, IsInapplicable) + Count(SecurityPolicy, repos, IsUndetermined)
         == |Positions(repos, PublicUnread)|
  {
    CountIsPositions(SecurityPolicy, repos, IsInapplicable, PublicInapplicable);
    CountIsPositions(SecurityPolicy, repos, IsExcluded, PublicUnread);
    ExcludedByReason(SecurityPolicy, repos);
  }

  /** Whatever is excluded is excluded for one of three reasons; only the policy can be inapplicable. */
  lemma {:induction false} ExcludedByReason(control: CoverageControl, repos: seq<Repo>)
    ensures Count(control, repos, IsExcluded)
         == Count(control, repos, IsDenied) + Count(control, repos, IsUndetermined)
            + Count(control, repos, IsInapplicable)
    ensures control in {SecurityPolicy, Dependabot, Codeowners} ==> Count(control, repos, IsDenied) == 0
    ensures control != SecurityPolicy ==> Count(control, repos, IsInapplicable) == 0
  {
    if repos != [] {
      hide Classify, CountWhere, InPopulation;
      var front, last := repos[..|repos| - 1], repos[|repos| - 1];
      ExcludedByReason(control, front);
      ReasonsOfOne(control, last);
      var entry := (last, Classify(control, last));
      CountNext(DenominatorPopulation(control, front), entry, IsExcluded);
      CountNext(DenominatorPopulation(control, front), entry, IsDenied);
      CountNext(DenominatorPopulation(control, front), entry, IsUndetermined);
      CountNext(DenominatorPopulation(control, front), entry, IsInapplicable);
    }
  }

  lemma ReasonsOfOne(control: CoverageControl, r: Repo)
    ensures control in {SecurityPolicy, Dependabot, Codeowners} ==> Classify(control, r) != Excluded(Denied)
    ensures control != SecurityPolicy ==> Classify(control, r) != Excluded(Inapplicable)
  {}

  /** The drill-down lists repositories in input order. */
  lemma {:induction false} PopulationInOrder(control: CoverageControl, before: seq<Repo>, after: seq<Repo>)
    ensures DenominatorPopulation(control, before + after)
         == DenominatorPopulation(control, before) + DenominatorPopulation(control, after)
    decreases |after|
  {
    hide Classify;
    if after == [] {
      assert before + after == before;
    } else {
      var n := |after| - 1;
      PopulationInOrder(control, before, after[..n]);
      assert (before + after)[..|before + after| - 1] == before + after[..n];
    }
  }

  /** One repository is listed iff it is in scope: public for the policy, and else not archived. */
  lemma PopulationAlone(control: CoverageControl, r: Repo)
    ensures DenominatorPopulation(control, [r])
         == if (if control == SecurityPolicy then r.repository.visibility == Public else !r.repository.archived)
            then [(r, Classify(control, r))] else []
  {
    assert [r][..0] == [];
  }

  /** Saturating in steps is saturating at the end. */
  lemma SatOfSum(a: nat, b: nat)
    ensures SatAdd(Sat(a), Sat(b)) == Sat(a + b)
    ensures Sat(a) > 0 <==> a > 0
  {}

  method SecurityPolicyCoverage(repos: seq<Repo>) returns (m: RateMetric)
    ensures m == DrillDownMetric(SecurityPolicy, repos)
    ensures m == Rate(repos, PublicWithPolicy, PublicWithoutPolicy, PublicUnread)
  {
    DrillDownIsRate(SecurityPolicy, repos, PublicWithPolicy, PublicWithoutPolicy, PublicUnread);
    var c := CountPolicyStatuses(Filter(repos, IsPublic));
    ghost var setting, file, missing, unknown := PolicyNumbers(repos);
    SatOfSum(setting, file);
    SatOfSum(unknown, 0);
    var tally := NO_EXCLUSIONS.(unknown := c.unknown);
    var pass := SatAdd(c.viaSetting, c.viaFile);
    MetricAgrees(SecurityPolicy, repos, pass, c.missing, tally);
    m := CoverageMetric(pass, c.missing, tally);
  }

  method SecretScanningCoverage(repos: seq<Repo>) returns (m: RateMetric)
    ensures m == DrillDownMetric(SecretScanning, repos)
    ensures m == Rate(repos, ActiveScanned, ActiveUnscanned, ActiveScanUnread)
  {
    DrillDownIsRate(SecretScanning, repos, ActiveScanned, ActiveUnscanned, ActiveScanUnread);
    var c := CountStatuses(Filter(repos, IsActive), CountScanning, NO_SCANNING);
    ghost var enabled, disabled, denied, unknown := ScanningNumbers(repos, c);
    SatOfSum(denied, 0);
    SatOfSum(unknown, 0);
    var tally := NO_EXCLUSIONS.(permissionDenied := c.permissionDenied, unknown := c.unknown);
    MetricAgrees(SecretScanning, repos, c.enabled, c.disabled, tally);
    m := CoverageMetric(c.enabled, c.disabled, tally);
  }

  method DependabotCoverage(repos: seq<Repo>) returns (m: RateMetric)
    ensures m == DrillDownMetric(Dependabot, repos)
    ensures m == Rate(repos, ActiveUpdated, ActiveNotUpdated, ActiveUpdateUnread)
  {
    DrillDownIsRate(Dependabot, repos, ActiveUpdated, ActiveNotUpdated, ActiveUpdateUnread);
    var c := CountStatuses(Filter(repos, IsActive), CountDependabot, NO_DEPENDABOT);
    ghost var enabled, paused, disabled, unknown := DependabotNumbers(repos, c);
    SatOfSum(paused, disabled);
    SatOfSum(unknown, 0);
    var tally := NO_EXCLUSIONS.(unknown := c.unknown);
    var nonEnabled := SatAdd(c.paused, c.disabled);
    MetricAgrees(Dependabot, repos, c.enabled, nonEnabled, tally);
    m := CoverageMetric(c.enabled, nonEnabled, tally);
  }

  method CodeownersCoverage(repos: seq<Repo>) returns (m: RateMetric)
    ensures m == DrillDownMetric(Codeowners, repos)
    ensures m == Rate(repos, ActiveOwned, ActiveUnowned, ActiveOwnersUnread)
  {
    DrillDownIsRate(Codeowners, repos, ActiveOwned, ActiveUnowned, ActiveOwnersUnread);
    var c := CountStatuses(Filter(repos, IsActive), CountCodeowners, NO_CODEOWNERS);
    ghost var conforming, other, absent, unknown := CodeownersNumbers(repos, c);
    SatOfSum(conforming, other);
    SatOfSum(unknown, 0);
    var tally := NO_EXCLUSIONS.(unknown := c.unknown);
    var present := SatAdd(c.conforming, c.nonConforming);
    MetricAgrees(Codeowners, repos, present, c.absent, tally);
    m := CoverageMetric(present, c.absent, tally);
  }

  method BranchProtectionCoverage(repos: seq<Repo>) returns (m: RateMetric)
    ensures m == DrillDownMetric(BranchProtection, repos)
    ensures m == Rate(repos, ActiveProtected, ActiveUnprotected, ActiveProtectionUnread)
  {
    DrillDownIsRate(BranchProtection, repos, ActiveProtected, ActiveUnprotected, ActiveProtectionUnread);
    var active := Filter(repos, IsActive);
    var c := CountStatuses(active, CountBranch, NO_BRANCH);
    var tally := CountBranchExclusions(active);
    BranchCountsAreTallies(active);
    BranchDrillDown(repos);
    MetricAgrees(BranchProtection, repos, c.pass, c.fail, tally);
    m := CoverageMetric(c.pass, c.fail, tally);
  }

  method OpenSecretAlertPrevalence(repos: seq<Repo>) returns (m: RateMetric)
    ensures m.numerator <= m.denominator
    ensures var active := Filter(repos, IsActive);
            m == RateMetric(Sat(Tally(active, AlertBucketOf, WithOpenAlerts)), Sat(|Filter(active, IsAlertObservable)|))
    ensures m == RateMetric(HowMany(repos, ActiveOpenAlerts), HowMany(repos, ActiveAlertsRead))
  {
    TallyIsPositions(repos, IsActive, AlertBucketOf, WithOpenAlerts, ActiveOpenAlerts);
    forall r: Repo ensures ActiveAlertsRead(r) <==> IsActive(r) && IsAlertObservable(r) {
      match r.checks.secretScanning.HasOpenAlerts()
      case None =>
      case Some(open) => assert open == true || open == false;
    }
    TallyIsPositions(repos, IsActive, IsAlertObservable, true, ActiveAlertsRead);
    ObservableIsTally(Filter(repos, IsActive));
    var active := Filter(repos, IsActive);
    var c := CountSecretAlerts(active);
    AlertBucketsPartition(active);
    m := RateMetric(c.withOpen, Sat(|Filter(active, IsAlertObservable)|));
  }

  lemma {:induction false} ObservableIsTally(active: seq<Repo>)
    ensures |Filter(active, IsAlertObservable)| == Tally(active, IsAlertObservable, true)
  {
    if active != [] { ObservableIsTally(active[..|active| - 1]); }
  }

  /** Count every control and build its coverage: each is what its drill-down predicts. */
  method AggregateCoverage(repos: seq<Repo>) returns (m: CoverageMetrics)
    ensures forall control: CoverageControl :: m.For(control) == DrillDownMetric(control, repos)
    ensures m.securityPolicy == Rate(repos, PublicWithPolicy, PublicWithoutPolicy, PublicUnread)
    ensures m.secretScanning == Rate(repos, ActiveScanned, ActiveUnscanned, ActiveScanUnread)
    ensures m.dependabot == Rate(repos, ActiveUpdated, ActiveNotUpdated, ActiveUpdateUnread)
    ensures m.codeowners == Rate(repos, ActiveOwned, ActiveUnowned, ActiveOwnersUnread)
    ensures m.branchProtection == Rate(repos, ActiveProtected, ActiveUnprotected, ActiveProtectionUnread)
    ensures m.openSecretAlerts == RateMetric(HowMany(repos, ActiveOpenAlerts), HowMany(repos, ActiveAlertsRead))
    ensures m.openSecretAlerts.numerator <= m.openSecretAlerts.denominator
  {
    var policy := SecurityPolicyCoverage(repos);
    var scanning := SecretScanningCoverage(repos);
    var dependabot := DependabotCoverage(repos);
    var codeowners := CodeownersCoverage(repos);
    var branch := BranchProtectionCoverage(repos);
    var alerts := OpenSecretAlertPrevalence(repos);
    m := CoverageMetrics(policy, scanning, dependabot, codeowners, branch, alerts);
  }

  // ----- Where the floor differs from its documentation

  /** The documented floor: nothing is eligible and some repository failed to be measured. */
  ghost predicate DocumentedFloor(control: CoverageControl, repos: seq<Repo>) {
    var population := DenominatorPopulation(control, repos);
    && DenominatorRepoCount(population) == 0
    && exists i :: 0 <= i < |population| && population[i].1.Excluded? && population[i].1.reason != Inapplicable
  }

  /**
   The code takes the floor as documented exactly when it is not facing a non-empty population in
   which every repository is inapplicable: it counts those as unknown. Only the policy can be inapplicable.
   */
  lemma FloorIsAsDocumentedIff(control: CoverageControl, repos: seq<Repo>)
    ensures var population := DenominatorPopulation(control, repos);
            (DrillDownMetric(control, repos) == RateMetric(0, 1) && DenominatorRepoCount(population) == 0
             <==> DocumentedFloor(control, repos))
            <==> !(population != [] && forall i | 0 <= i < |population| :: population[i].1 == Excluded(Inapplicable))
    ensures control != SecurityPolicy ==>
              forall i | 0 <= i < |DenominatorPopulation(control, repos)| ::
                DenominatorPopulation(control, repos)[i].1 != Excluded(Inapplicable)
  {
    var population := DenominatorPopulation(control, repos);
    EligibleCountsEligible(population);
    if control != SecurityPolicy { OnlyPolicyIsInapplicable(control, repos); }
    if population != [] { assert population[0] in population; }
  }

  /** One public repository to which the policy does not apply takes the floor without any measurement failure. */
  lemma InapplicableTakesTheFloor(r: Repo)
    requires IsPublic(r) && r.checks.securityPolicy.PolicyNotApplicable?
    ensures DrillDownMetric(SecurityPolicy, [r]) == RateMetric(0, 1)
    ensures !DocumentedFloor(SecurityPolicy, [r])
  {
    var entry := (r, Excluded(Inapplicable));
    assert [r][..0] == [];
    assert DenominatorPopulation(SecurityPolicy, [r]) == [] + [entry] == [entry];
    EligibleCountsEligible([entry]);
    assert [entry][0].1.Excluded?;
  }

  lemma {:induction false} EligibleCountsEligible(population: seq<(Repo, Membership)>)
    ensures CountWhere(population, IsEligible) == 0 <==> forall i | 0 <= i < |population| :: population[i].1.Excluded?
  {
    if population != [] {
      var n := |population| - 1;
      EligibleCountsEligible(population[..n]);
      if forall i | 0 <= i < n :: population[..n][i].1.Excluded? {
        assert forall i | 0 <= i < n :: population[i] == population[..n][i];
      }
    }
  }

  lemma {:induction false} OnlyPolicyIsInapplicable(control: CoverageControl, repos: seq<Repo>)
    requires control != SecurityPolicy
    ensures forall i | 0 <= i < |DenominatorPopulation(control, repos)| ::
              DenominatorPopulation(control, repos)[i].1 != Excluded(Inapplicable)
  {
    if repos != [] { OnlyPolicyIsInapplicable(control, repos[..|repos| - 1]); }
  }
}
