/**
 Publication admission: may a freshly rendered report replace the one being served?

 A candidate carries its quality: where it was captured from, which repositories and rosters it
 protects, and whether the inventory was known. `Preserves` decides admission pairwise; the theorems
 say what holds between any two publications of a whole run of commits.
 */
module Publication {
  import opened Wrappers
  import opened Domain

  // ----- Tokens and provenance

  datatype ProjectionToken = ProjectionToken(source: nat, sequence: nat, deletedKeys: set<string>) {
    predicate WitnessesDeletion(key: string) { key in deletedKeys }

    predicate Succeeds(previous: ProjectionToken) {
      source == previous.source && sequence >= previous.sequence
    }
  }

  datatype LiveToken = LiveToken(source: nat, sequence: nat) {
    predicate Succeeds(previous: LiveToken) {
      source == previous.source && sequence >= previous.sequence
    }

    predicate BelongsTo(projection: ProjectionToken) { source == projection.source }
  }

  datatype Provenance =
    | Projection(token: ProjectionToken)
    | LiveOverlay(token: ProjectionToken, live: LiveToken)
    | Unordered

  // ----- Capture times

  datatype CaptureTime = Missing | Malformed | Captured(at: int) {
    predicate Preserves(previous: CaptureTime) {
      match (this, previous)
      case (Captured(next), Captured(prior)) => next >= prior
      case (Captured(_), _) => true
      case (_, _) => false
    }
  }

  /** The timestamp parser of the time library, which is not part of this model. */
  type Clock = string -> Option<int>

  function ParseTime(clock: Clock, value: Option<string>): CaptureTime {
    if value.None? || value.value == "" then Missing
    else match clock(value.value)
         case Some(at) => Captured(at)
         case None => Malformed
  }

  function Older(a: CaptureTime, b: CaptureTime): CaptureTime {
    if a.Malformed? || b.Malformed? then Malformed
    else if a.Missing? || b.Missing? then Missing
    else Captured(if a.at <= b.at then a.at else b.at)
  }

  /** The capture time of a non-empty list of observations, reduced from the left. */
  function Oldest(clock: Clock, stamps: seq<string>): CaptureTime
    requires stamps != []
  {
    var last := ParseTime(clock, Some(stamps[|stamps| - 1]));
    if |stamps| == 1 then last else Older(Oldest(clock, stamps[..|stamps| - 1]), last)
  }

  function FromChecks(clock: Clock, checks: RepositoryChecks): CaptureTime {
    var stamps := checks.ObservedTimestamps();
    if stamps == [] then Missing else Oldest(clock, stamps)
  }

  /** A capture time is as good as its worst observation: any unparsable one spoils it, then any missing one. */
  lemma {:induction false} OldestIsWorst(clock: Clock, stamps: seq<string>)
    requires stamps != []
    ensures var oldest := Oldest(clock, stamps);
            && (oldest.Malformed? <==> exists s :: s in stamps && ParseTime(clock, Some(s)).Malformed?)
            && (oldest.Captured? <==> forall s :: s in stamps ==> ParseTime(clock, Some(s)).Captured?)
            && (oldest.Captured? ==>
                  && (exists s :: s in stamps && ParseTime(clock, Some(s)) == oldest)
                  && (forall s :: s in stamps ==> ParseTime(clock, Some(s)).at >= oldest.at))
  {
    var last := stamps[|stamps| - 1];
    var rest := stamps[..|stamps| - 1];
    assert stamps == rest + [last];
    assert forall s :: s in stamps <==> s in rest || s == last;
    if rest != [] { OldestIsWorst(clock, rest); }
  }

  /**
   The capture time of a repository, check by check: malformed when the clock refuses the stamp of some
   observed check, else missing when some observed check has no stamp or none was observed, and else
   the time of the oldest observation.
   */
  lemma CaptureTimeIsTheWorst(clock: Clock, checks: RepositoryChecks)
    ensures var time := FromChecks(clock, checks);
            && (time.Malformed? <==> exists s :: ObservedAt(checks, s) && s != "" && clock(s) == None)
            && (time.Captured? <==>
                  && (exists s :: ObservedAt(checks, s))
                  && forall s :: ObservedAt(checks, s) ==> s != "" && clock(s).Some?)
            && (time.Captured? ==>
                  && (exists s :: ObservedAt(checks, s) && clock(s) == Some(time.at))
                  && (forall s :: ObservedAt(checks, s) ==> clock(s).value >= time.at))
  {
    var stamps := checks.ObservedTimestamps();
    forall s ensures s in stamps <==> ObservedAt(checks, s) { ObservedTimestampsAre(checks, s); }
    if stamps == [] {
      assert forall s :: s !in stamps;
    } else {
      OldestIsWorst(clock, stamps);
      assert stamps[0] in stamps;
    }
  }

  // ----- Quality

  datatype ProtectedEntry<T> = ProtectedEntry(complete: bool, captured: CaptureTime, content: T)

  datatype Quality = Quality(
    provenance: Provenance,
    inventoryKnown: bool,
    repositories: map<string, ProtectedEntry<RepositoryEvidence>>,
    rosters: map<string, ProtectedEntry<TeamRoster>>)

  /** `same` is the content equality the source derives for the entry's type. */
  predicate PreservesEntry<T>(
      same: (T, T) -> bool, incoming: ProtectedEntry<T>, previous: ProtectedEntry<T>, ordered: bool)
  {
    && (previous.complete ==> incoming.complete)
    && (ordered || incoming.captured.Preserves(previous.captured) || same(incoming.content, previous.content))
  }

  predicate SameEvidence(a: RepositoryEvidence, b: RepositoryEvidence) { a.SameAs(b) }

  predicate SameRoster(a: TeamRoster, b: TeamRoster) { a == b }

  predicate PreservesRosters(incoming: Quality, previous: Quality, ordered: bool) {
    forall key | key in previous.rosters ::
      key in incoming.rosters && PreservesEntry(SameRoster, incoming.rosters[key], previous.rosters[key], ordered)
  }

  predicate WitnessesDeletion(provenance: Provenance, key: string) {
    !provenance.Unordered? && provenance.token.WitnessesDeletion(key)
  }

  predicate PreservesRepositories(incoming: Quality, previous: Quality, ordered: bool) {
    forall key | key in previous.repositories ::
      if key in incoming.repositories
      then PreservesEntry(SameEvidence, incoming.repositories[key], previous.repositories[key], ordered)
      else ordered && WitnessesDeletion(incoming.provenance, key)
  }

  /** Which comparisons the two provenances allow: `(repositories ordered, rosters ordered)`, if any. */
  function Comparison(incoming: Quality, previous: Quality): Option<(bool, bool)> {
    match (incoming.provenance, previous.provenance)
    case (Projection(next), Projection(prior)) => if next.Succeeds(prior) then Some((true, true)) else None
    case (LiveOverlay(next, live), Projection(prior)) =>
      if next.Succeeds(prior) && live.BelongsTo(next) then Some((true, true)) else None
    case (LiveOverlay(next, live), LiveOverlay(prior, previousLive)) =>
      if next.Succeeds(prior) && live.BelongsTo(next) && previousLive.BelongsTo(prior) && live.Succeeds(previousLive)
      then Some((true, true)) else None
    case (Projection(next), LiveOverlay(prior, _)) =>
      if next.Succeeds(prior) && previous.rosters == map[] then Some((true, false)) else None
    case (Unordered, Unordered) => Some((false, false))
    case (_, _) => None
  }

  predicate Preserves(incoming: Quality, previous: Quality) {
    match Comparison(incoming, previous)
    case None => false
    case Some((repositoriesOrdered, rostersOrdered)) =>
      && (previous.inventoryKnown ==> incoming.inventoryKnown)
      && PreservesRepositories(incoming, previous, repositoriesOrdered)
      && PreservesRosters(incoming, previous, rostersOrdered)
  }

  // ----- Preservation spelled out

  /** The later provenance is of the same kind and source as the earlier one and not behind it. */
  ghost predicate NotBehind(later: Provenance, earlier: Provenance) {
    if later.Unordered? || earlier.Unordered? then later.Unordered? && earlier.Unordered?
    else
      && later.token.source == earlier.token.source && later.token.sequence >= earlier.token.sequence
      && (later.LiveOverlay? ==> later.live.source == later.token.source)
      && (later.LiveOverlay? && earlier.LiveOverlay? ==>
            && earlier.live.source == earlier.token.source
            && later.live.sequence >= earlier.live.sequence)
  }

  /** The later capture has a time, and no known earlier time exceeds it. */
  ghost predicate NotOlder(later: CaptureTime, earlier: CaptureTime) {
    later.Captured? && (earlier.Captured? ==> later.at >= earlier.at)
  }

  /**
   What it takes to replace a report: nothing is lost without a witnessed deletion, nothing complete
   becomes incomplete, and without an order between the captures nothing becomes older unless it is the
   same. Past a live report that protects rosters only a live one may come.
   */
  ghost predicate MayFollow(later: Quality, earlier: Quality) {
    var ordered := !later.provenance.Unordered?;
    && NotBehind(later.provenance, earlier.provenance)
    && (earlier.provenance.LiveOverlay? && earlier.rosters != map[] ==> later.provenance.LiveOverlay?)
    && (earlier.inventoryKnown ==> later.inventoryKnown)
    && (forall key | key in earlier.repositories ::
          if key !in later.repositories then ordered && key in later.provenance.token.deletedKeys
          else
            var x, y := later.repositories[key], earlier.repositories[key];
            && (y.complete ==> x.complete)
            && (ordered || NotOlder(x.captured, y.captured) || SameContent(x.content, y.content)))
    && (forall key | key in earlier.rosters ::
          && key in later.rosters
          && (var x, y := later.rosters[key], earlier.rosters[key];
              (y.complete ==> x.complete) && (ordered || NotOlder(x.captured, y.captured) || x.content == y.content)))
  }

  lemma PreservesIff(incoming: Quality, previous: Quality)
    ensures Preserves(incoming, previous) <==> MayFollow(incoming, previous)
  {
    if NotBehind(incoming.provenance, previous.provenance) {
      assert forall key | key in previous.repositories && key in incoming.repositories ::
        SameEvidence(incoming.repositories[key].content, previous.repositories[key].content)
        == SameContent(incoming.repositories[key].content, previous.repositories[key].content);
    }
  }

  // ----- Quality from evidence

  datatype Evidence = Evidence(repositories: seq<RepositoryEvidence>, rosters: seq<TeamRoster>)

  function ProtectRepositories(clock: Clock, repos: seq<RepositoryEvidence>)
    : map<string, ProtectedEntry<RepositoryEvidence>>
  {
    if repos == [] then map[]
    else
      var rest, last := ProtectRepositories(clock, repos[..|repos| - 1]), repos[|repos| - 1];
      if last.checks.IsObserved()
      then rest[last.repository.inventoryKey :=
                  ProtectedEntry(last.IsComplete(), FromChecks(clock, last.checks), last)]
      else rest
  }

  function ProtectRosters(clock: Clock, rosters: seq<TeamRoster>): map<string, ProtectedEntry<TeamRoster>> {
    if rosters == [] then map[]
    else
      var rest, last := ProtectRosters(clock, rosters[..|rosters| - 1]), rosters[|rosters| - 1];
      if last.status == TeamRosterStatus.Complete
      then rest[last.canonicalOwner := ProtectedEntry(true, ParseTime(clock, last.fetchedAt), last)]
      else rest
  }

  function FromEvidence(clock: Clock, evidence: Evidence, inventoryComplete: bool, provenance: Provenance): Quality {
    Quality(provenance, inventoryComplete,
            ProtectRepositories(clock, evidence.repositories), ProtectRosters(clock, evidence.rosters))
  }

  // ----- Commits

  datatype Page = Page(etag: string, body: string)

  datatype Stage = WarmStart | Intermediate | Terminal

  datatype Candidate = Candidate(
    quality: Quality, stage: Stage, pages: map<string, Page>, retainedPages: map<string, Page>)

  datatype Admitted = Current(candidate: Candidate) | Retained(candidate: Candidate) {
    function Cache(): map<string, Page> {
      if Current? then candidate.pages else candidate.retainedPages
    }
  }

  predicate Replaces(incoming: Candidate, previous: Candidate) {
    previous.stage == WarmStart || Preserves(incoming.quality, previous.quality)
  }

  function Etags(cache: map<string, Page>): map<string, string> { map path | path in cache :: cache[path].etag }

  class EvidenceState {
    var publication: Option<Admitted>
    var htmlCache: Option<map<string, Page>>
    /** The page paths of each update sent to subscribers. */
    var updates: seq<set<string>>
    /** The etags of the cache when subscribers were last notified. */
    ghost var announced: Option<map<string, string>>

    ghost predicate Valid()
      reads this
    {
      match publication
      case None => htmlCache == None && announced == None
      case Some(admitted) => htmlCache == Some(admitted.Cache()) && announced == Some(Etags(admitted.Cache()))
    }

    constructor ()
      ensures Valid() && publication == None && htmlCache == None && updates == []
    {
      publication, htmlCache, updates, announced := None, None, [], None;
    }

    /**
     Admit the candidate or retain the previous publication, and serve the result. `rerendered` is the
     retained report rendered again with its new disclosure, when there is input for it and it succeeds.
     Subscribers are sent the paths of all pages exactly when the etags they saw have changed.
     */
    method CommitCachedPages(candidate: Candidate, rerendered: Option<map<string, Page>>) returns (pageCount: nat)
      requires Valid()
      modifies this
      ensures Valid()
      ensures var admits := || old(publication).None? || old(publication).value.candidate.stage == WarmStart
                            || MayFollow(candidate.quality, old(publication).value.candidate.quality);
              var pages :=
                if admits then candidate.pages
                else if rerendered.Some? then rerendered.value
                else old(publication).value.candidate.retainedPages;
              && publication == Some(
                   if admits then Current(candidate)
                   else Retained(old(publication).value.candidate.(retainedPages := pages)))
              && htmlCache == Some(pages) && pageCount == |pages|
              && updates == old(updates) + (
                   if old(htmlCache).Some? && old(htmlCache).value.Keys == pages.Keys
                      && forall path | path in pages :: old(htmlCache).value[path].etag == pages[path].etag
                   then [] else [pages.Keys])
    {
      if publication.Some? { PreservesIff(candidate.quality, publication.value.candidate.quality); }
      var next;
      if publication.Some?
         && publication.value.candidate.stage != WarmStart
         && !Preserves(candidate.quality, publication.value.candidate.quality)
      {
        var previous := publication.value.candidate;
        if rerendered.Some? {
          previous := previous.(retainedPages := rerendered.value);
        }
        next := Retained(previous);
      } else {
        next := Current(candidate);
      }
      var cache := next.Cache();
      pageCount := |cache|;
      var same := htmlCache.Some? && SameEtags(htmlCache.value, cache);
      if htmlCache.Some? {
        SameEtagsMeansNoChange(htmlCache.value, cache);
        SameEtagsIff(htmlCache.value, cache);
      }
      htmlCache := Some(cache);
      publication := Some(next);
      if !same {
        updates := updates + [cache.Keys];
        announced := Some(Etags(cache));
      }
    }

    /** Commit candidates one after the other; `rerendered[i]` is the retained report at the `i`-th commit. */
    method CommitAll(run: seq<Candidate>, rerendered: seq<Option<map<string, Page>>>)
      requires Valid() && |rerendered| == |run| && (publication.Some? || run != [])
      modifies this
      ensures Valid() && publication.Some?
      ensures var first := if old(publication).Some? then old(publication).value.candidate else run[0];
              SameReport(publication.value.candidate, AdmittedAt(first, run, |run|))
    {
      ghost var first := if publication.Some? then publication.value.candidate else run[0];
      for i := 0 to |run|
        invariant Valid() && (publication.None? ==> i == 0 && run != [] && first == run[0])
        invariant publication.Some? ==> SameReport(publication.value.candidate, AdmittedAt(first, run, i))
      {
        if publication.Some? { PreservesIff(run[i].quality, publication.value.candidate.quality); }
        var _ := CommitCachedPages(run[i], rerendered[i]);
      }
    }
  }

  /** The same report, whatever is shown of it while it is retained. */
  predicate SameReport(a: Candidate, b: Candidate) {
    a.quality == b.quality && a.stage == b.stage && a.pages == b.pages
  }

  /** The source's comparison: as many pages, and every new page served before under the same etag. */
  predicate SameEtags(previous: map<string, Page>, cache: map<string, Page>) {
    |previous| == |cache| && forall path | path in cache :: path in previous && previous[path].etag == cache[path].etag
  }

  lemma SameEtagsMeansNoChange(previous: map<string, Page>, cache: map<string, Page>)
    ensures SameEtags(previous, cache) <==> Etags(previous) == Etags(cache)
  {
    if SameEtags(previous, cache) {
      assert cache.Keys <= previous.Keys;
      if cache.Keys != previous.Keys {
        SmallerSubset(cache.Keys, previous.Keys);
      }
      assert |cache| == |cache.Keys| && |previous| == |previous.Keys|;
    }
    if Etags(previous) == Etags(cache) {
      assert previous.Keys == Etags(previous).Keys == Etags(cache).Keys == cache.Keys;
      assert |cache| == |cache.Keys| && |previous| == |previous.Keys|;
      forall path | path in cache ensures previous[path].etag == cache[path].etag {
        assert Etags(previous)[path] == Etags(cache)[path];
      }
    }
  }

  lemma SameEtagsIff(previous: map<string, Page>, cache: map<string, Page>)
    ensures SameEtags(previous, cache) <==>
              previous.Keys == cache.Keys && forall path | path in cache :: previous[path].etag == cache[path].etag
  {
    assert |cache| == |cache.Keys| && |previous| == |previous.Keys|;
    if SameEtags(previous, cache) && cache.Keys != previous.Keys { SmallerSubset(cache.Keys, previous.Keys); }
  }

  lemma SmallerSubset<T>(a: set<T>, b: set<T>)
    requires a < b
    ensures |a| < |b|
  {
    assert b == a + (b - a);
    assert |b| == |a| + |b - a|;
  }

  // ----- Runs of commits

  /** The publication admitted after the first `n` candidates of a run that starts from `p`. */
  function AdmittedAt(p: Candidate, run: seq<Candidate>, n: nat): Candidate
    requires n <= |run|
  {
    if n == 0 then p
    else
      var previous := AdmittedAt(p, run, n - 1);
      if Replaces(run[n - 1], previous) then run[n - 1] else previous
  }

  ghost predicate NoWarmStart(p: Candidate, run: seq<Candidate>) {
    forall n: nat | n <= |run| :: AdmittedAt(p, run, n).stage != WarmStart
  }

  lemma {:induction false} AdmittedIsACandidate(p: Candidate, run: seq<Candidate>, n: nat)
    requires n <= |run|
    ensures AdmittedAt(p, run, n) == p || AdmittedAt(p, run, n) in run
  {
    if n > 0 {
      AdmittedIsACandidate(p, run, n - 1);
      assert run[n - 1] in run;
    }
  }

  /** A run has no warm start on display when neither its start nor any candidate is one. */
  lemma {:induction false} NoWarmStartAmongCandidates(p: Candidate, run: seq<Candidate>)
    requires p.stage != WarmStart && forall c | c in run :: c.stage != WarmStart
    ensures NoWarmStart(p, run)
  {
    forall n: nat | n <= |run| ensures AdmittedAt(p, run, n).stage != WarmStart { AdmittedIsACandidate(p, run, n); }
  }

  /** Admission bypasses every guard exactly when the publication on display is a warm start. */
  lemma GuardIsBypassedIffWarmStart(previous: Candidate)
    ensures (exists c :: Replaces(c, previous) && !Preserves(c.quality, previous.quality))
            <==> previous.stage == WarmStart
  {
    if previous.stage == WarmStart {
      var foreign :=
        if previous.quality.provenance.Unordered? then Projection(ProjectionToken(0, 0, {})) else Unordered;
      var c := previous.(quality := previous.quality.(provenance := foreign));
      assert Replaces(c, previous) && !Preserves(c.quality, previous.quality);
    }
  }

  /** A report can always replace itself, unless its live token belongs to another projection. */
  lemma ReportReplacesItself(q: Quality)
    ensures Preserves(q, q) <==> (q.provenance.LiveOverlay? ==> q.provenance.live.BelongsTo(q.provenance.token))
  {}

  /** A complete repository stays complete, or some publication admitted since witnesses its deletion. */
  lemma {:induction false} CompleteRepositoryStays(p: Candidate, run: seq<Candidate>, i: nat, j: nat, key: string)
    requires i <= j <= |run| && NoWarmStart(p, run)
    requires var q := AdmittedAt(p, run, i).quality; key in q.repositories && q.repositories[key].complete
    ensures var q := AdmittedAt(p, run, j).quality;
            || (key in q.repositories && q.repositories[key].complete)
            || exists m: nat :: i < m <= j && WitnessesDeletion(AdmittedAt(p, run, m).quality.provenance, key)
  {
    if i < j {
      CompleteRepositoryStays(p, run, i, j - 1, key);
      assert AdmittedAt(p, run, j - 1).stage != WarmStart;
    }
  }

  /** The rosters on display are never lost, and a known inventory stays known. */
  lemma {:induction false} RostersAndInventoryStay(p: Candidate, run: seq<Candidate>, i: nat, j: nat)
    requires i <= j <= |run| && NoWarmStart(p, run)
    ensures var a, b := AdmittedAt(p, run, i).quality, AdmittedAt(p, run, j).quality;
            && a.rosters.Keys <= b.rosters.Keys
            && (a.inventoryKnown ==> b.inventoryKnown)
            && (forall key | key in a.rosters :: a.rosters[key].complete ==> b.rosters[key].complete)
  {
    if i < j {
      RostersAndInventoryStay(p, run, i, j - 1);
      var a, b, c := AdmittedAt(p, run, i).quality, AdmittedAt(p, run, j - 1).quality, AdmittedAt(p, run, j).quality;
      assert AdmittedAt(p, run, j - 1).stage != WarmStart;
      assert b.rosters.Keys <= c.rosters.Keys;
    }
  }

  /** Ordered and unordered provenance never mix, and the projection token never goes backwards. */
  lemma {:induction false} ProjectionOrderIsKept(p: Candidate, run: seq<Candidate>, i: nat, j: nat)
    requires i <= j <= |run| && NoWarmStart(p, run)
    ensures var a, b := AdmittedAt(p, run, i).quality.provenance, AdmittedAt(p, run, j).quality.provenance;
            && (a.Unordered? <==> b.Unordered?)
            && (!a.Unordered? ==> b.token.source == a.token.source && b.token.sequence >= a.token.sequence)
  {
    if i < j {
      ProjectionOrderIsKept(p, run, i, j - 1);
      assert AdmittedAt(p, run, j - 1).stage != WarmStart;
    }
  }

  /**
   Live observations never go backwards from a live publication that protects a roster, nor in a run
   that offers no plain projection.
   */
  lemma {:induction false} LiveOrderIsKept(p: Candidate, run: seq<Candidate>, i: nat, j: nat)
    requires i <= j <= |run| && NoWarmStart(p, run) && AdmittedAt(p, run, i).quality.provenance.LiveOverlay?
    requires || AdmittedAt(p, run, i).quality.rosters != map[]
             || forall n | i <= n < j :: !run[n].quality.provenance.Projection?
    ensures var a, b := AdmittedAt(p, run, i).quality.provenance, AdmittedAt(p, run, j).quality.provenance;
            b.LiveOverlay? && b.live.source == a.live.source && b.live.sequence >= a.live.sequence
  {
    if i < j {
      LiveOrderIsKept(p, run, i, j - 1);
      RostersAndInventoryStay(p, run, i, j - 1);
      var a, b := AdmittedAt(p, run, i).quality, AdmittedAt(p, run, j - 1).quality;
      assert AdmittedAt(p, run, j - 1).stage != WarmStart;
      assert a.rosters != map[] ==> b.rosters != map[] by {
        if key :| key in a.rosters { assert key in b.rosters; }
      }
    }
  }

  /** Through a plain projection admitted in between, an older live observation can come back. */
  lemma LiveOrderIsLostThroughAProjection(p: Candidate)
    requires p.stage != WarmStart && p.quality.provenance.LiveOverlay? && p.quality.rosters == map[]
    requires p.quality.provenance.live.sequence > 0
    ensures exists run: seq<Candidate> :: |run| == 2 && NoWarmStart(p, run)
              && AdmittedAt(p, run, 2).quality.provenance.LiveOverlay?
              && AdmittedAt(p, run, 2).quality.provenance.live.sequence < p.quality.provenance.live.sequence
  {
    var token := p.quality.provenance.token;
    var plain := p.(quality := p.quality.(provenance := Projection(token)));
    var stale := p.(quality := p.quality.(provenance := LiveOverlay(token, LiveToken(token.source, 0))));
    var run := [plain, stale];
    assert Preserves(plain.quality, p.quality) && Preserves(stale.quality, plain.quality);
    assert AdmittedAt(p, run, 1) == plain && AdmittedAt(p, run, 2) == stale;
    forall n: nat | n <= |run| ensures AdmittedAt(p, run, n).stage != WarmStart {
      assert n == 0 || n == 1 || n == 2;
    }
  }

  /** Every later live publication, in whatever run without warm starts, is no older than `p`. */
  ghost predicate KeepsLiveOrder(p: Candidate)
    requires p.quality.provenance.LiveOverlay?
  {
    forall run: seq<Candidate>, j: nat | j <= |run| && NoWarmStart(p, run) ::
      var later := AdmittedAt(p, run, j).quality.provenance;
      later.LiveOverlay? ==> later.live.sequence >= p.quality.provenance.live.sequence
  }

  /**
   Which live publications can be followed by an older live one: exactly those that protect no roster,
   past sequence zero. A protected roster keeps every plain projection from being admitted in between.
   */
  lemma LiveOrderIsKeptIff(p: Candidate)
    requires p.stage != WarmStart && p.quality.provenance.LiveOverlay?
    ensures KeepsLiveOrder(p) <==> p.quality.rosters != map[] || p.quality.provenance.live.sequence == 0
  {
    if p.quality.rosters != map[] {
      forall run: seq<Candidate>, j: nat | j <= |run| && NoWarmStart(p, run)
        ensures var later := AdmittedAt(p, run, j).quality.provenance;
                later.LiveOverlay? ==> later.live.sequence >= p.quality.provenance.live.sequence
      {
        LiveOrderIsKept(p, run, 0, j);
      }
    } else if p.quality.provenance.live.sequence > 0 {
      LiveOrderIsLostThroughAProjection(p);
      var run: seq<Candidate> :| |run| == 2 && NoWarmStart(p, run)
        && AdmittedAt(p, run, 2).quality.provenance.LiveOverlay?
        && AdmittedAt(p, run, 2).quality.provenance.live.sequence < p.quality.provenance.live.sequence;
      assert !KeepsLiveOrder(p);
    }
  }

  // ----- Recency without order

  /** The quality was computed from evidence with this clock. */
  ghost predicate Honest(clock: Clock, q: Quality) {
    && (forall key | key in q.repositories ::
          q.repositories[key].captured == FromChecks(clock, q.repositories[key].content.checks))
    && (forall key | key in q.rosters ::
          q.rosters[key].captured == ParseTime(clock, q.rosters[key].content.fetchedAt))
  }

  /** The later entry has a capture time, which no known time of the earlier one exceeds, or the same content. */
  predicate NoOlder<T>(same: (T, T) -> bool, later: ProtectedEntry<T>, earlier: ProtectedEntry<T>) {
    || (later.captured.Captured? && (earlier.captured.Captured? ==> later.captured.at >= earlier.captured.at))
    || same(later.content, earlier.content)
  }

  /** Nothing protected by `earlier` is missing from `later` or replaced by an older capture. */
  ghost predicate KeepsRecency(later: Quality, earlier: Quality) {
    && (forall key | key in earlier.repositories ::
          key in later.repositories && NoOlder(SameEvidence, later.repositories[key], earlier.repositories[key]))
    && (forall key | key in earlier.rosters ::
          key in later.rosters && NoOlder(SameRoster, later.rosters[key], earlier.rosters[key]))
  }

  /** Equal content has equal capture times, so recency composes. */
  lemma RecencyComposes(clock: Clock, a: Quality, b: Quality, c: Quality)
    requires Honest(clock, a) && Honest(clock, b) && Honest(clock, c)
    requires KeepsRecency(b, a) && KeepsRecency(c, b)
    ensures KeepsRecency(c, a)
  {
    forall key | key in a.repositories
      ensures key in c.repositories && NoOlder(SameEvidence, c.repositories[key], a.repositories[key])
    {
      assert key in b.repositories && key in c.repositories;
      RepositoryRecencyComposes(clock, a.repositories[key], b.repositories[key], c.repositories[key]);
    }
    RosterRecencyKept(clock, a, b, c);
  }

  lemma RosterRecencyKept(clock: Clock, a: Quality, b: Quality, c: Quality)
    requires Honest(clock, a) && Honest(clock, b) && Honest(clock, c)
    requires KeepsRecency(b, a) && KeepsRecency(c, b)
    ensures forall key | key in a.rosters ::
              key in c.rosters && NoOlder(SameRoster, c.rosters[key], a.rosters[key])
  {
    forall key | key in a.rosters
      ensures key in c.rosters && NoOlder(SameRoster, c.rosters[key], a.rosters[key])
    {
      assert key in b.rosters && key in c.rosters;
      RosterRecencyComposes(clock, a.rosters[key], b.rosters[key], c.rosters[key]);
    }
  }

  lemma RepositoryRecencyComposes(
      clock: Clock, x: ProtectedEntry<RepositoryEvidence>, y: ProtectedEntry<RepositoryEvidence>,
      z: ProtectedEntry<RepositoryEvidence>)
    requires x.captured == FromChecks(clock, x.content.checks)
    requires y.captured == FromChecks(clock, y.content.checks)
    requires z.captured == FromChecks(clock, z.content.checks)
    requires NoOlder(SameEvidence, y, x) && NoOlder(SameEvidence, z, y)
    ensures NoOlder(SameEvidence, z, x)
  {}

  lemma RosterRecencyComposes(
      clock: Clock, x: ProtectedEntry<TeamRoster>, y: ProtectedEntry<TeamRoster>, z: ProtectedEntry<TeamRoster>)
    requires x.captured == ParseTime(clock, x.content.fetchedAt)
    requires y.captured == ParseTime(clock, y.content.fetchedAt)
    requires z.captured == ParseTime(clock, z.content.fetchedAt)
    requires NoOlder(SameRoster, y, x) && NoOlder(SameRoster, z, y)
    ensures NoOlder(SameRoster, z, x)
  {}

  lemma UnorderedAdmissionKeepsRecency(b: Quality, c: Quality)
    requires b.provenance.Unordered? && Preserves(c, b)
    ensures KeepsRecency(c, b)
  {
    forall key | key in b.repositories
      ensures key in c.repositories && NoOlder(SameEvidence, c.repositories[key], b.repositories[key]) {}
    forall key | key in b.rosters
      ensures key in c.rosters && NoOlder(SameRoster, c.rosters[key], b.rosters[key]) {}
  }

  /** In an unordered run nothing on display is ever lost, and nothing changes to an older capture. */
  lemma {:induction false} UnorderedRunsKeepRecency(clock: Clock, p: Candidate, run: seq<Candidate>, i: nat, j: nat)
    requires i <= j <= |run| && NoWarmStart(p, run) && p.quality.provenance.Unordered?
    requires Honest(clock, p.quality) && forall c | c in run :: Honest(clock, c.quality)
    ensures KeepsRecency(AdmittedAt(p, run, j).quality, AdmittedAt(p, run, i).quality)
  {
    if i < j {
      UnorderedRunsKeepRecency(clock, p, run, i, j - 1);
      var a, b, c := AdmittedAt(p, run, i).quality, AdmittedAt(p, run, j - 1).quality, AdmittedAt(p, run, j).quality;
      assert AdmittedAt(p, run, j - 1).stage != WarmStart;
      ProjectionOrderIsKept(p, run, 0, j - 1);
      assert AdmittedAt(p, run, 0) == p;
      AdmittedIsHonest(clock, p, run, i);
      AdmittedIsHonest(clock, p, run, j - 1);
      AdmittedIsHonest(clock, p, run, j);
      if c != b {
        UnorderedAdmissionKeepsRecency(b, c);
        RecencyComposes(clock, a, b, c);
      }
    } else {
      assert KeepsRecency(AdmittedAt(p, run, i).quality, AdmittedAt(p, run, i).quality);
    }
  }

  lemma {:induction false} AdmittedIsHonest(clock: Clock, p: Candidate, run: seq<Candidate>, n: nat)
    requires n <= |run|
    requires Honest(clock, p.quality) && forall c | c in run :: Honest(clock, c.quality)
    ensures Honest(clock, AdmittedAt(p, run, n).quality)
  {
    if n > 0 {
      AdmittedIsHonest(clock, p, run, n - 1);
      assert run[n - 1] in run;
    }
  }

  // ----- From evidence to quality

  lemma {:induction false} EvidenceIsHonest(clock: Clock, e: Evidence, known: bool, provenance: Provenance)
    ensures var q := FromEvidence(clock, e, known, provenance);
            Honest(clock, q) && q.inventoryKnown == known && q.provenance == provenance
  {
    HonestRepositories(clock, e.repositories);
    HonestRosters(clock, e.rosters);
  }

  lemma {:induction false} HonestRepositories(clock: Clock, repos: seq<RepositoryEvidence>)
    ensures forall key | key in ProtectRepositories(clock, repos) ::
              var entry := ProtectRepositories(clock, repos)[key];
              && entry.content in repos && entry.content.repository.inventoryKey == key
              && entry.content.checks.IsObserved()
              && entry.complete == entry.content.IsComplete()
              && entry.captured == FromChecks(clock, entry.content.checks)
    ensures forall r | r in repos && r.checks.IsObserved() ::
              r.repository.inventoryKey in ProtectRepositories(clock, repos)
  {
    if repos != [] {
      var rest, last := repos[..|repos| - 1], repos[|repos| - 1];
      HonestRepositories(clock, rest);
      assert repos == rest + [last];
    }
  }

  /** The entry is of this key and some of its checks was observed. */
  ghost predicate ObservedAs(r: RepositoryEvidence, key: string) {
    r.repository.inventoryKey == key && exists stamp :: ObservedAt(r.checks, stamp)
  }

  /** Entry `i` is the last one of the report that is observed under this key. */
  ghost predicate LastObserved(repos: seq<RepositoryEvidence>, key: string, i: int) {
    0 <= i < |repos| && ObservedAs(repos[i], key) && forall j | i < j < |repos| :: !ObservedAs(repos[j], key)
  }

  /** A key is protected iff it is observed: by its last observed entry, complete iff all its checks conclude. */
  lemma {:induction false} ProtectedRepository(clock: Clock, repos: seq<RepositoryEvidence>, key: string)
    ensures var m := ProtectRepositories(clock, repos);
            && (key in m <==> exists i :: LastObserved(repos, key, i))
            && forall i | LastObserved(repos, key, i) ::
                 m[key] == ProtectedEntry(AllConclusive(repos[i].checks), FromChecks(clock, repos[i].checks), repos[i])
  {
    if repos != [] {
      hide LastObserved, ObservedAs, FromChecks, AllConclusive, ProtectRepositories;
      var n := |repos| - 1;
      ProtectedRepository(clock, repos[..n], key);
      ProtectsNext(clock, repos, key);
      LastObservedNext(repos, key);
    }
  }

  lemma ProtectsNext(clock: Clock, repos: seq<RepositoryEvidence>, key: string)
    requires repos != []
    ensures var last := repos[|repos| - 1];
            var m, rest := ProtectRepositories(clock, repos), ProtectRepositories(clock, repos[..|repos| - 1]);
            if ObservedAs(last, key)
            then key in m && m[key] == ProtectedEntry(AllConclusive(last.checks), FromChecks(clock, last.checks), last)
            else (key in m <==> key in rest) && (key in m ==> m[key] == rest[key])
  {
    hide FromChecks;
    IsObservedIff(repos[|repos| - 1].checks);
    IsCompleteIff(repos[|repos| - 1]);
  }

  lemma LastObservedNext(repos: seq<RepositoryEvidence>, key: string)
    requires repos != []
    ensures var n := |repos| - 1;
            if ObservedAs(repos[n], key)
            then LastObserved(repos, key, n) && forall i | LastObserved(repos, key, i) :: i == n
            else forall i :: LastObserved(repos, key, i) <==> LastObserved(repos[..n], key, i) && 0 <= i < n
    ensures forall i | LastObserved(repos, key, i) :: 0 <= i < |repos|
  {
    hide ObservedAs;
    var n := |repos| - 1;
    if !ObservedAs(repos[n], key) {
      forall i ensures LastObserved(repos, key, i) <==> LastObserved(repos[..n], key, i) {
        assert forall j | 0 <= j < n :: repos[..n][j] == repos[j];
      }
    }
  }

  lemma {:induction false} HonestRosters(clock: Clock, rosters: seq<TeamRoster>)
    ensures forall key | key in ProtectRosters(clock, rosters) ::
              var entry := ProtectRosters(clock, rosters)[key];
              && entry.content in rosters && entry.content.canonicalOwner == key
              && entry.content.status == TeamRosterStatus.Complete && entry.complete
              && entry.captured == ParseTime(clock, entry.content.fetchedAt)
    ensures forall r | r in rosters && r.status == TeamRosterStatus.Complete ::
              r.canonicalOwner in ProtectRosters(clock, rosters)
  {
    if rosters != [] {
      var rest, last := rosters[..|rosters| - 1], rosters[|rosters| - 1];
      HonestRosters(clock, rest);
      assert rosters == rest + [last];
    }
  }

  /** Entry `i` is the last complete roster of this owner. */
  ghost predicate LastComplete(rosters: seq<TeamRoster>, owner: string, i: int) {
    && 0 <= i < |rosters| && rosters[i].canonicalOwner == owner && rosters[i].status == TeamRosterStatus.Complete
    && forall j | i < j < |rosters| ::
         rosters[j].canonicalOwner != owner || rosters[j].status != TeamRosterStatus.Complete
  }

  /** A roster is protected iff a complete one of its owner is reported, with the last one's content and time stamp. */
  lemma {:induction false} ProtectedRoster(clock: Clock, rosters: seq<TeamRoster>, owner: string)
    ensures var m := ProtectRosters(clock, rosters);
            && (owner in m <==> exists i :: LastComplete(rosters, owner, i))
            && forall i | LastComplete(rosters, owner, i) ::
                 var (entry, stamp) := (m[owner], rosters[i].fetchedAt);
                 && entry.content == rosters[i] && entry.complete
                 && (entry.captured.Missing? <==> stamp == None || stamp == Some(""))
                 && (entry.captured.Captured? ==> clock(stamp.value) == Some(entry.captured.at))
                 && (entry.captured.Malformed? ==> clock(stamp.value) == None)
  {
    if rosters != [] {
      var n := |rosters| - 1;
      var front, last := rosters[..n], rosters[n];
      ProtectedRoster(clock, front, owner);
      if last.canonicalOwner == owner && last.status == TeamRosterStatus.Complete {
        assert LastComplete(rosters, owner, n);
      } else {
        forall i ensures LastComplete(rosters, owner, i) <==> LastComplete(front, owner, i) {}
      }
    }
  }

  /** The report lists `key`, and every entry it has for it is complete. */
  ghost predicate ReportsComplete(e: Evidence, key: string) {
    && (exists r :: r in e.repositories && r.repository.inventoryKey == key)
    && (forall r | r in e.repositories && r.repository.inventoryKey == key :: r.IsComplete())
  }

  /** A complete repository is observed and hence protected; protection speaks of a reported repository. */
  lemma CompleteIsProtected(clock: Clock, e: Evidence, key: string)
    ensures var m := ProtectRepositories(clock, e.repositories);
            && (ReportsComplete(e, key) ==> key in m && m[key].complete)
            && (key in m && m[key].complete ==>
                  exists r :: r in e.repositories && r.repository.inventoryKey == key && r.IsComplete())
  {
    HonestRepositories(clock, e.repositories);
    if ReportsComplete(e, key) {
      var r :| r in e.repositories && r.repository.inventoryKey == key;
      assert r.checks.ObservedTimestamps() != [] by { assert r.IsComplete(); }
    }
  }

  /**
   The guards do not lock a report in: a later capture of the same projection with a complete inventory
   is admitted when it reports complete what was protected, or the projection witnesses its deletion.
   */
  lemma FullCaptureIsAdmitted(clock: Clock, e: Evidence, incoming: Candidate, previous: Candidate)
    requires incoming.quality.provenance.Projection? && previous.quality.provenance.Projection?
    requires incoming.quality == FromEvidence(clock, e, true, incoming.quality.provenance)
    requires incoming.quality.provenance.token.Succeeds(previous.quality.provenance.token)
    requires forall key | key in previous.quality.repositories ::
      || ReportsComplete(e, key)
      || (incoming.quality.provenance.token.WitnessesDeletion(key)
          && forall r | r in e.repositories :: r.repository.inventoryKey != key)
    requires forall key | key in previous.quality.rosters ::
      exists r :: r in e.rosters && r.canonicalOwner == key && r.status == TeamRosterStatus.Complete
    ensures Replaces(incoming, previous)
  {
    var q := incoming.quality;
    HonestRepositories(clock, e.repositories);
    HonestRosters(clock, e.rosters);
    forall key | key in previous.quality.repositories
      ensures if key in q.repositories
              then PreservesEntry(SameEvidence, q.repositories[key], previous.quality.repositories[key], true)
              else WitnessesDeletion(q.provenance, key)
    {
      CompleteIsProtected(clock, e, key);
    }
    forall key | key in previous.quality.rosters
      ensures key in q.rosters && PreservesEntry(SameRoster, q.rosters[key], previous.quality.rosters[key], true)
    {
      var r :| r in e.rosters && r.canonicalOwner == key && r.status == TeamRosterStatus.Complete;
    }
  }

  /**
   Without an order the guards do not lock a report in either: a capture with a complete inventory is
   admitted when it reports everything protected complete and no older, be it of the very same time.
   */
  lemma UnorderedCaptureIsAdmitted(clock: Clock, e: Evidence, incoming: Candidate, previous: Candidate)
    requires incoming.quality.provenance.Unordered? && previous.quality.provenance.Unordered?
    requires incoming.quality == FromEvidence(clock, e, true, Unordered)
    requires forall key | key in previous.quality.repositories ::
      && ReportsComplete(e, key)
      && forall r | r in e.repositories && r.repository.inventoryKey == key ::
           NotOlder(FromChecks(clock, r.checks), previous.quality.repositories[key].captured)
    requires forall key | key in previous.quality.rosters ::
      && (exists r :: r in e.rosters && r.canonicalOwner == key && r.status == TeamRosterStatus.Complete)
      && forall r | r in e.rosters && r.canonicalOwner == key && r.status == TeamRosterStatus.Complete ::
           NotOlder(ParseTime(clock, r.fetchedAt), previous.quality.rosters[key].captured)
    ensures Replaces(incoming, previous)
  {
    var q, p := incoming.quality, previous.quality;
    HonestRepositories(clock, e.repositories);
    HonestRosters(clock, e.rosters);
    forall key | key in p.repositories
      ensures key in q.repositories && q.repositories[key].complete
      ensures NotOlder(q.repositories[key].captured, p.repositories[key].captured)
    {
      CompleteIsProtected(clock, e, key);
    }
    forall key | key in p.rosters
      ensures key in q.rosters && q.rosters[key].complete
      ensures NotOlder(q.rosters[key].captured, p.rosters[key].captured)
    {
      var r :| r in e.rosters && r.canonicalOwner == key && r.status == TeamRosterStatus.Complete;
    }
    PreservesIff(q, p);
  }

  /**
   End to end: with reports `es` behind the candidates, a repository reported complete is still
   reported complete by every later publication until one is admitted that witnesses its deletion.
   */
  lemma CompleteReportStays(
      clock: Clock, p: Candidate, run: seq<Candidate>, before: Evidence, after: Evidence, i: nat, j: nat, key: string)
    requires i <= j <= |run| && NoWarmStart(p, run) && ReportsComplete(before, key)
    requires AdmittedAt(p, run, i).quality.repositories == ProtectRepositories(clock, before.repositories)
    requires AdmittedAt(p, run, j).quality.repositories == ProtectRepositories(clock, after.repositories)
    ensures || (exists r :: r in after.repositories && r.repository.inventoryKey == key && r.IsComplete())
            || exists m: nat :: i < m <= j && WitnessesDeletion(AdmittedAt(p, run, m).quality.provenance, key)
  {
    CompleteIsProtected(clock, before, key);
    CompleteRepositoryStays(p, run, i, j, key);
    CompleteIsProtected(clock, after, key);
  }
}
