/**
 The evidence projection: an event fold with anti-downgrade guards, soft deletes and ghost teams.

 Every map of the projection is a family of slots, one for each key. A slot is cleared by removals
 and filled by observations, except that an incomplete observation never replaces a complete one.
 `Selected` says without any recursion which observation of a history a slot must hold, and
 `SlotHoldsSelected` proves that the incremental fold holds exactly that one.
 */
module Projection {
  import opened Wrappers
  import opened Ordering
  import opened Domain

  datatype CollectionStatus = Success | NotCollected | PermissionDenied | TransientError | Unavailable

  /** The organisation read model; its complete content besides the alert status is `rest`. */
  datatype OrgReadModel = OrgReadModel(archivedRepos: nat, alertStatus: CollectionStatus, rest: string) {
    predicate IsComplete() { alertStatus == Success }
  }

  datatype DeletedRepoRecord = DeletedRepoRecord(repoName: string, detectedAt: string)

  datatype Event =
    | RepositoryStateCaptured(detached: bool, domainKey: string, evidence: Option<RepositoryEvidence>)
    | RepositoryDeleted(domainKey: string, repoName: string, detectedAt: string)
    | OrgStateCaptured(snapshot: OrgReadModel)
    | TeamStateCaptured(detached: bool, domainKey: string, roster: Option<TeamRoster>)

  datatype State = State(
    repositories: map<string, RepositoryEvidence>,
    deleted: map<string, DeletedRepoRecord>,
    orgState: Option<OrgReadModel>,
    teamRosters: map<string, TeamRoster>,
    teamGhostRosters: map<string, TeamRoster>)

  const EMPTY := State(map[], map[], None, map[], map[])

  function Lookup<T>(m: map<string, T>, k: string): Option<T> { if k in m then Some(m[k]) else None }

  predicate CompleteRoster(r: TeamRoster) { r.status == TeamRosterStatus.Complete }

  predicate CompleteEvidence(e: RepositoryEvidence) { e.IsComplete() }

  predicate CompleteOrg(o: OrgReadModel) { o.IsComplete() }

  /** The anti-downgrade guard: may `incoming` overwrite what a slot holds? */
  predicate Admits<T>(complete: T -> bool, existing: Option<T>, incoming: T) {
    !(existing.Some? && complete(existing.value)) || complete(incoming)
  }

  function Step(s: State, e: Event): State {
    match e
    case RepositoryStateCaptured(detached, k, evidence) =>
      if detached then s.(repositories := s.repositories - {k})
      else if evidence.Some? && Admits(CompleteEvidence, Lookup(s.repositories, k), evidence.value) then
        s.(repositories := s.repositories[k := evidence.value], deleted := s.deleted - {k})
      else s
    case RepositoryDeleted(k, name, at) =>
      s.(repositories := s.repositories - {k}, deleted := s.deleted[k := DeletedRepoRecord(name, at)])
    case OrgStateCaptured(snapshot) =>
      if Admits(CompleteOrg, s.orgState, snapshot) then s.(orgState := Some(snapshot)) else s
    case TeamStateCaptured(detached, k, roster) =>
      if detached then
        s.(teamRosters := s.teamRosters - {k},
           teamGhostRosters :=
             if roster.Some? && roster.value.status == TeamRosterStatus.Deleted
             then s.teamGhostRosters[k := roster.value]
             else s.teamGhostRosters - {k})
      else if roster.Some? then
        s.(teamRosters :=
             if Admits(CompleteRoster, Lookup(s.teamRosters, k), roster.value)
             then s.teamRosters[k := roster.value]
             else s.teamRosters,
           teamGhostRosters := s.teamGhostRosters - {k})
      else s
  }

  function Fold(s: State, h: seq<Event>): State {
    if h == [] then s else Step(Fold(s, h[..|h| - 1]), h[|h| - 1])
  }

  function LoadAll(m: map<string, RepositoryEvidence>, entries: seq<RepositoryEvidence>)
    : map<string, RepositoryEvidence>
  {
    if entries == [] then m
    else
      var last := entries[|entries| - 1];
      LoadAll(m, entries[..|entries| - 1])[last.repository.inventoryKey := last]
  }

  /** `keys` are the keys of the map in increasing order, and `pairs` what its values say of themselves. */
  ghost predicate Enumerates(m: map<string, RepositoryEvidence>, keys: seq<string>, pairs: seq<(string, string)>) {
    && SortedBy(TextLt, keys) && Elements(keys) == m.Keys && |pairs| == |keys|
    && forall i | 0 <= i < |keys| ::
         keys[i] in m && pairs[i] == (m[keys[i]].repository.inventoryKey, m[keys[i]].repository.name)
  }

  class EvidenceProjection {
    var repositories: map<string, RepositoryEvidence>
    var deleted: map<string, DeletedRepoRecord>
    var orgState: Option<OrgReadModel>
    var teamRosters: map<string, TeamRoster>
    var teamGhostRosters: map<string, TeamRoster>

    constructor ()
      ensures View() == EMPTY
      ensures repositories == map[] && deleted == map[] && orgState == None
      ensures teamRosters == map[] && teamGhostRosters == map[]
    {
      repositories, deleted, orgState, teamRosters, teamGhostRosters := map[], map[], None, map[], map[];
    }

    function View(): State
      reads this
    {
      State(repositories, deleted, orgState, teamRosters, teamGhostRosters)
    }

    method Apply(e: Event)
      modifies this
      ensures View() == Step(old(View()), e)
    {
      match e
      case RepositoryStateCaptured(detached, k, evidence) =>
        if detached {
          repositories := repositories - {k};
        } else if evidence.Some? {
          var existingIsComplete := k in repositories && repositories[k].IsComplete();
          var incomingIsComplete := evidence.value.IsComplete();
          if !existingIsComplete || incomingIsComplete {
            deleted := deleted - {k};
            repositories := repositories[k := evidence.value];
          }
        }
      case RepositoryDeleted(k, name, at) =>
        repositories := repositories - {k};
        deleted := deleted[k := DeletedRepoRecord(name, at)];
      case OrgStateCaptured(snapshot) =>
        ApplyOrgState(snapshot);
      case TeamStateCaptured(detached, k, roster) =>
        if detached {
          teamRosters := teamRosters - {k};
          if roster.Some? && roster.value.status == TeamRosterStatus.Deleted {
            teamGhostRosters := teamGhostRosters[k := roster.value];
          } else {
            teamGhostRosters := teamGhostRosters - {k};
          }
        } else if roster.Some? {
          var existingIsComplete := k in teamRosters && teamRosters[k].status == TeamRosterStatus.Complete;
          var incomingIsComplete := roster.value.status == TeamRosterStatus.Complete;
          if !existingIsComplete || incomingIsComplete {
            teamRosters := teamRosters[k := roster.value];
          }
          teamGhostRosters := teamGhostRosters - {k};
        }
    }

    method ApplyOrgState(snapshot: OrgReadModel)
      modifies this`orgState
      ensures View() == Step(old(View()), OrgStateCaptured(snapshot))
    {
      var existingIsComplete := orgState.Some? && orgState.value.IsComplete();
      var incomingIsComplete := snapshot.IsComplete();
      if !existingIsComplete || incomingIsComplete {
        orgState := Some(snapshot);
      }
    }

    /** Replay a whole log, oldest event first. */
    method Replay(h: seq<Event>)
      modifies this
      ensures View() == Fold(old(View()), h)
    {
      for i := 0 to |h|
        invariant View() == Fold(old(View()), h[..i])
      {
        Apply(h[i]);
        assert h[..i + 1][..i] == h[..i];
      }
      assert h[..|h|] == h;
    }

    method BulkLoad(entries: seq<RepositoryEvidence>)
      modifies this`repositories
      ensures View() == old(View()).(repositories := LoadAll(old(repositories), entries))
    {
      for i := 0 to |entries|
        invariant repositories == LoadAll(old(repositories), entries[..i])
      {
        repositories := repositories[entries[i].repository.inventoryKey := entries[i]];
        assert entries[..i + 1][..i] == entries[..i];
      }
      assert entries[..|entries|] == entries;
    }

    /** The `(inventory key, name)` pairs of the live repositories, in projection-key order. */
    method KeyNameSnapshot() returns (pairs: seq<(string, string)>)
      ensures exists keys :: Enumerates(repositories, keys, pairs)
    {
      var ordered := KeysInOrder(repositories.Keys);
      pairs := [];
      for i := 0 to |ordered|
        invariant |pairs| == i
        invariant forall j | 0 <= j < i ::
          && ordered[j] in repositories
          && pairs[j] == (repositories[ordered[j]].repository.inventoryKey, repositories[ordered[j]].repository.name)
      {
        assert ordered[i] in Elements(ordered);
        var repo := repositories[ordered[i]].repository;
        pairs := pairs + [(repo.inventoryKey, repo.name)];
      }
      assert Enumerates(repositories, ordered, pairs);
    }
  }

  /** Iteration order of the source's ordered maps. */
  method KeysInOrder(s: set<string>) returns (keys: seq<string>)
    ensures SortedBy(TextLt, keys)
    ensures Elements(keys) == s
  {
    var rest, found := s, [];
    while rest != {}
      invariant rest <= s && Elements(found) == s - rest && Distinct(found)
      decreases rest
    {
      var k :| k in rest;
      assert forall x :: x in found ==> x in Elements(found);
      assert Elements(found + [k]) == Elements(found) + {k};
      rest, found := rest - {k}, found + [k];
    }
    keys := InsertionSort(TextLe, found);
    TextLeTotal(Elements(found));
    InsertionSortSorted(TextLe, found);
    SortKeepsDistinct(TextLe, found);
    forall i, j | 0 <= i < j < |keys| ensures TextLt(keys[i], keys[j]) { CompareTextReverses(keys[i], keys[j]); }
  }

  // ----- Slots

  datatype SlotEvent<+T> = Other | Removed | Seen(value: T)

  function SlotStep<T>(complete: T -> bool, cell: Option<T>, e: SlotEvent<T>): Option<T> {
    match e
    case Other => cell
    case Removed => None
    case Seen(v) => if Admits(complete, cell, v) then Some(v) else cell
  }

  function SlotFold<T>(complete: T -> bool, cell: Option<T>, xs: seq<SlotEvent<T>>): Option<T> {
    if xs == [] then cell
    else SlotStep(complete, SlotFold(complete, cell, xs[..|xs| - 1]), xs[|xs| - 1])
  }

  ghost predicate NoRemovalBetween<T>(xs: seq<SlotEvent<T>>, i: int, j: int)
    requires 0 <= i && j <= |xs|
  {
    forall r | i < r < j :: !xs[r].Removed?
  }

  /**
   Observation `i` is the one the slot must hold: nothing was removed after it, and it is the last
   complete observation since the last removal or, when there is none, the last observation.
   */
  ghost predicate Selected<T>(complete: T -> bool, xs: seq<SlotEvent<T>>, i: int) {
    && 0 <= i < |xs| && xs[i].Seen?
    && NoRemovalBetween(xs, i, |xs|)
    && (forall j | i < j < |xs| && xs[j].Seen? :: complete(xs[i].value) && !complete(xs[j].value))
    && (complete(xs[i].value)
        || forall j | 0 <= j < i && xs[j].Seen? && complete(xs[j].value) :: !NoRemovalBetween(xs, j, |xs|))
  }

  lemma {:induction false} SlotHoldsSelected<T>(complete: T -> bool, xs: seq<SlotEvent<T>>)
    ensures forall i | Selected(complete, xs, i) :: SlotFold(complete, None, xs) == Some(xs[i].value)
    ensures SlotFold(complete, None, xs).Some? ==> exists i :: Selected(complete, xs, i)
    ensures forall j | 0 <= j < |xs| && xs[j].Seen? && NoRemovalBetween(xs, j, |xs|) ::
              var cell := SlotFold(complete, None, xs);
              cell.Some? && (complete(xs[j].value) ==> complete(cell.value))
  {
    if xs != [] {
      var n := |xs| - 1;
      var ys, e := xs[..n], xs[n];
      SlotHoldsSelected(complete, ys);
      assert forall j | 0 <= j < n :: NoRemovalBetween(xs, j, |xs|) <==> NoRemovalBetween(ys, j, n) && !e.Removed?;
      var before := SlotFold(complete, None, ys);
      if e.Other? {
        assert forall i | 0 <= i < n :: Selected(complete, xs, i) <==> Selected(complete, ys, i);
      } else if e.Seen? {
        if Admits(complete, before, e.value) {
          assert Selected(complete, xs, n);
        } else {
          var i :| Selected(complete, ys, i);
          assert Selected(complete, xs, i);
          assert forall i | 0 <= i < n && Selected(complete, xs, i) :: Selected(complete, ys, i);
        }
      }
    }
  }

  ghost predicate CompleteCell<T>(complete: T -> bool, cell: Option<T>) {
    cell.Some? && complete(cell.value)
  }

  /** Some event settles the slot whatever it held before: a removal or a complete observation. */
  ghost predicate Settles<T>(complete: T -> bool, xs: seq<SlotEvent<T>>) {
    exists j | 0 <= j < |xs| :: xs[j].Removed? || (xs[j].Seen? && complete(xs[j].value))
  }

  /** How much of its starting cell a slot remembers. */
  lemma {:induction false} SlotMemory<T>(complete: T -> bool, c: Option<T>, d: Option<T>, xs: seq<SlotEvent<T>>)
    ensures Settles(complete, xs) ==> SlotFold(complete, c, xs) == SlotFold(complete, d, xs)
    ensures !Settles(complete, xs) && CompleteCell(complete, c) ==> SlotFold(complete, c, xs) == c
    ensures !Settles(complete, xs) && !CompleteCell(complete, c) ==>
              && !CompleteCell(complete, SlotFold(complete, c, xs))
              && (!CompleteCell(complete, d) ==>
                    || SlotFold(complete, c, xs) == SlotFold(complete, d, xs)
                    || (SlotFold(complete, c, xs) == c && SlotFold(complete, d, xs) == d))
    decreases |xs|
  {
    if xs != [] {
      var ys, e := xs[..|xs| - 1], xs[|xs| - 1];
      assert xs == ys + [e];
      SlotMemory(complete, c, d, ys);
      SlotMemory(complete, d, c, ys);
      assert Settles(complete, xs) <==>
        Settles(complete, ys) || e.Removed? || (e.Seen? && complete(e.value)) by {
        if Settles(complete, ys) {
          var j :| 0 <= j < |ys| && (ys[j].Removed? || (ys[j].Seen? && complete(ys[j].value)));
          assert xs[j] == ys[j];
        }
        assert xs[|ys|] == e;
      }
    }
  }

  /** Feeding a slot the same events twice changes nothing more than feeding them once. */
  lemma SlotReplay<T>(complete: T -> bool, cell: Option<T>, xs: seq<SlotEvent<T>>)
    ensures SlotFold(complete, SlotFold(complete, cell, xs), xs) == SlotFold(complete, cell, xs)
  {
    SlotMemory(complete, cell, SlotFold(complete, cell, xs), xs);
    SlotMemory(complete, SlotFold(complete, cell, xs), cell, xs);
  }

  // ----- The slots of the projection

  function RepositorySlot(e: Event, k: string): SlotEvent<RepositoryEvidence> {
    match e
    case RepositoryStateCaptured(detached, key, evidence) =>
      if key != k then Other else if detached then Removed
      else if evidence.Some? then Seen(evidence.value) else Other
    case RepositoryDeleted(key, _, _) => if key == k then Removed else Other
    case _ => Other
  }

  /** A deletion record is written by each delete and withdrawn by each live observation. */
  function DeletedSlot(e: Event, k: string): SlotEvent<DeletedRepoRecord> {
    match e
    case RepositoryStateCaptured(detached, key, evidence) =>
      if key == k && !detached && evidence.Some? then Removed else Other
    case RepositoryDeleted(key, name, at) =>
      if key == k then Seen(DeletedRepoRecord(name, at)) else Other
    case _ => Other
  }

  function OrgSlot(e: Event): SlotEvent<OrgReadModel> {
    if e.OrgStateCaptured? then Seen(e.snapshot) else Other
  }

  function RosterSlot(e: Event, k: string): SlotEvent<TeamRoster> {
    match e
    case TeamStateCaptured(detached, key, roster) =>
      if key != k then Other else if detached then Removed
      else if roster.Some? then Seen(roster.value) else Other
    case _ => Other
  }

  /** A ghost is left by a detach carrying a deleted roster and withdrawn by any other effective event. */
  function GhostSlot(e: Event, k: string): SlotEvent<TeamRoster> {
    match e
    case TeamStateCaptured(detached, key, roster) =>
      if key != k then Other
      else if detached then
        if roster.Some? && roster.value.status == TeamRosterStatus.Deleted then Seen(roster.value) else Removed
      else if roster.Some? then Removed else Other
    case _ => Other
  }

  function RepositorySlots(h: seq<Event>, k: string): seq<SlotEvent<RepositoryEvidence>> {
    seq(|h|, i requires 0 <= i < |h| => RepositorySlot(h[i], k))
  }

  function DeletedSlots(h: seq<Event>, k: string): seq<SlotEvent<DeletedRepoRecord>> {
    seq(|h|, i requires 0 <= i < |h| => DeletedSlot(h[i], k))
  }

  function OrgSlots(h: seq<Event>): seq<SlotEvent<OrgReadModel>> {
    seq(|h|, i requires 0 <= i < |h| => OrgSlot(h[i]))
  }

  function RosterSlots(h: seq<Event>, k: string): seq<SlotEvent<TeamRoster>> {
    seq(|h|, i requires 0 <= i < |h| => RosterSlot(h[i], k))
  }

  function GhostSlots(h: seq<Event>, k: string): seq<SlotEvent<TeamRoster>> {
    seq(|h|, i requires 0 <= i < |h| => GhostSlot(h[i], k))
  }

  predicate Never<T>(x: T) { false }

  ghost predicate KeyDisjoint(s: State) {
    && s.repositories.Keys !! s.deleted.Keys
    && s.teamRosters.Keys !! s.teamGhostRosters.Keys
  }

  /** No deletion record stands beside a complete live repository. */
  ghost predicate ReplaySafe(s: State) {
    forall k | k in s.deleted && k in s.repositories :: !s.repositories[k].IsComplete()
  }

  lemma {:induction false} FoldKeepsReplaySafe(s: State, h: seq<Event>)
    requires ReplaySafe(s)
    ensures ReplaySafe(Fold(s, h))
  {
    if h != [] {
      FoldKeepsReplaySafe(s, h[..|h| - 1]);
    }
  }

  /** In a run of `apply` alone a key is never live and deleted, nor a live roster and a ghost. */
  lemma {:induction false} FoldKeepsDisjoint(s: State, h: seq<Event>)
    requires KeyDisjoint(s)
    ensures KeyDisjoint(Fold(s, h))
  {
    if h != [] {
      FoldKeepsDisjoint(s, h[..|h| - 1]);
    }
  }

  // One event acts on each slot of each map as its slot event says.

  lemma RepositoryStepIsSlotwise(s: State, e: Event, k: string)
    ensures Lookup(Step(s, e).repositories, k)
         == SlotStep(CompleteEvidence, Lookup(s.repositories, k), RepositorySlot(e, k))
  {
    match e
    case RepositoryStateCaptured(detached, key, evidence) =>
      if key == k && !detached && evidence.Some? { assert RepositorySlot(e, k) == Seen(evidence.value); }
    case _ =>
  }

  /** The deletion record follows its slot event unless the guard rejects the observation that would withdraw it. */
  lemma DeletedStepIsSlotwise(s: State, e: Event, k: string)
    ensures var rejected := && e.RepositoryStateCaptured? && e.domainKey == k && !e.detached && e.evidence.Some?
                            && !Admits(CompleteEvidence, Lookup(s.repositories, k), e.evidence.value);
            Lookup(Step(s, e).deleted, k)
            == SlotStep(Never, Lookup(s.deleted, k), if rejected then Other else DeletedSlot(e, k))
  {
    match e
    case RepositoryStateCaptured(detached, key, evidence) =>
    case _ =>
  }

  lemma RosterStepIsSlotwise(s: State, e: Event, k: string)
    ensures Lookup(Step(s, e).teamRosters, k)
         == SlotStep(CompleteRoster, Lookup(s.teamRosters, k), RosterSlot(e, k))
  {
    match e
    case TeamStateCaptured(detached, key, roster) =>
      if key == k && !detached && roster.Some? { assert RosterSlot(e, k) == Seen(roster.value); }
    case _ =>
  }

  lemma GhostStepIsSlotwise(s: State, e: Event, k: string)
    ensures Lookup(Step(s, e).teamGhostRosters, k)
         == SlotStep(Never, Lookup(s.teamGhostRosters, k), GhostSlot(e, k))
  {
    match e
    case TeamStateCaptured(detached, key, roster) =>
    case _ =>
  }

  lemma {:induction false} RepositoriesFoldBySlots(s: State, h: seq<Event>, k: string)
    ensures Lookup(Fold(s, h).repositories, k)
         == SlotFold(CompleteEvidence, Lookup(s.repositories, k), RepositorySlots(h, k))
  {
    if h != [] {
      var n := |h| - 1;
      RepositoriesFoldBySlots(s, h[..n], k);
      RepositoryStepIsSlotwise(Fold(s, h[..n]), h[n], k);
      assert RepositorySlots(h, k)[..n] == RepositorySlots(h[..n], k);
    }
  }

  /** A deleted key is not live and complete, so an observation of it is always admitted. */
  lemma {:induction false} DeletedFoldsBySlots(s: State, h: seq<Event>, k: string)
    requires ReplaySafe(s)
    ensures Lookup(Fold(s, h).deleted, k) == SlotFold(Never, Lookup(s.deleted, k), DeletedSlots(h, k))
  {
    if h != [] {
      var n := |h| - 1;
      DeletedFoldsBySlots(s, h[..n], k);
      FoldKeepsReplaySafe(s, h[..n]);
      DeletedStepIsSlotwise(Fold(s, h[..n]), h[n], k);
      assert DeletedSlots(h, k)[..n] == DeletedSlots(h[..n], k);
    }
  }

  lemma {:induction false} OrgFoldsBySlots(s: State, h: seq<Event>)
    ensures Fold(s, h).orgState == SlotFold(CompleteOrg, s.orgState, OrgSlots(h))
  {
    if h != [] {
      var n := |h| - 1;
      OrgFoldsBySlots(s, h[..n]);
      assert OrgSlots(h)[..n] == OrgSlots(h[..n]);
    }
  }

  lemma {:induction false} RostersFoldBySlots(s: State, h: seq<Event>, k: string)
    ensures Lookup(Fold(s, h).teamRosters, k)
         == SlotFold(CompleteRoster, Lookup(s.teamRosters, k), RosterSlots(h, k))
  {
    if h != [] {
      var n := |h| - 1;
      RostersFoldBySlots(s, h[..n], k);
      RosterStepIsSlotwise(Fold(s, h[..n]), h[n], k);
      assert RosterSlots(h, k)[..n] == RosterSlots(h[..n], k);
    }
  }

  lemma {:induction false} GhostsFoldBySlots(s: State, h: seq<Event>, k: string)
    ensures Lookup(Fold(s, h).teamGhostRosters, k)
         == SlotFold(Never, Lookup(s.teamGhostRosters, k), GhostSlots(h, k))
  {
    if h != [] {
      var n := |h| - 1;
      GhostsFoldBySlots(s, h[..n], k);
      GhostStepIsSlotwise(Fold(s, h[..n]), h[n], k);
      assert GhostSlots(h, k)[..n] == GhostSlots(h[..n], k);
    }
  }

  // ----- The fold as a query over the whole log

  /** `cell` holds the selected observation of the slot history, and is empty when there is none. */
  ghost predicate IsQueryResult<T>(complete: T -> bool, xs: seq<SlotEvent<T>>, cell: Option<T>) {
    match cell
    case Some(v) => exists i :: Selected(complete, xs, i) && xs[i].value == v
    case None => forall i :: !Selected(complete, xs, i)
  }

  lemma SlotIsQueryResult<T>(complete: T -> bool, xs: seq<SlotEvent<T>>)
    ensures IsQueryResult(complete, xs, SlotFold(complete, None, xs))
  {
    SlotHoldsSelected(complete, xs);
  }

  /**
   After folding any log from empty, every map equals a query over the log. For the last-writer
   slots (`Never` complete) the selected event is simply the last effective one, when it is a write.
   */
  lemma FoldIsQuery(h: seq<Event>, k: string)
    ensures IsQueryResult(CompleteEvidence, RepositorySlots(h, k), Lookup(Fold(EMPTY, h).repositories, k))
    ensures IsQueryResult(Never, DeletedSlots(h, k), Lookup(Fold(EMPTY, h).deleted, k))
    ensures IsQueryResult(CompleteOrg, OrgSlots(h), Fold(EMPTY, h).orgState)
    ensures IsQueryResult(CompleteRoster, RosterSlots(h, k), Lookup(Fold(EMPTY, h).teamRosters, k))
    ensures IsQueryResult(Never, GhostSlots(h, k), Lookup(Fold(EMPTY, h).teamGhostRosters, k))
  {
    RepositoriesFoldBySlots(EMPTY, h, k);
    DeletedFoldsBySlots(EMPTY, h, k);
    OrgFoldsBySlots(EMPTY, h);
    RostersFoldBySlots(EMPTY, h, k);
    GhostsFoldBySlots(EMPTY, h, k);
    SlotIsQueryResult(CompleteEvidence, RepositorySlots(h, k));
    SlotIsQueryResult(Never, DeletedSlots(h, k));
    SlotIsQueryResult(CompleteOrg, OrgSlots(h));
    SlotIsQueryResult(CompleteRoster, RosterSlots(h, k));
    SlotIsQueryResult(Never, GhostSlots(h, k));
  }

  // ----- The same in the log's own terms

  ghost predicate Observes(e: Event, k: string) {
    e.RepositoryStateCaptured? && !e.detached && e.domainKey == k && e.evidence.Some?
  }

  ghost predicate Removes(e: Event, k: string) {
    (e.RepositoryStateCaptured? && e.detached && e.domainKey == k) || (e.RepositoryDeleted? && e.domainKey == k)
  }

  /**
   Event `i` is the observation of the repository to hold: nothing removes it afterwards, and it is the
   last complete observation since the last removal or, when there is none, the last observation.
   */
  ghost predicate RepositoryHeld(h: seq<Event>, k: string, i: int) {
    && 0 <= i < |h| && Observes(h[i], k)
    && (forall j | i < j < |h| :: !Removes(h[j], k))
    && (forall j | i < j < |h| && Observes(h[j], k) ::
          AllConclusive(h[i].evidence.value.checks) && !AllConclusive(h[j].evidence.value.checks))
    && (AllConclusive(h[i].evidence.value.checks)
        || forall j | 0 <= j < i && Observes(h[j], k) && AllConclusive(h[j].evidence.value.checks) ::
             exists r :: j < r < |h| && Removes(h[r], k))
  }

  lemma SelectedRepository(h: seq<Event>, k: string, i: int)
    ensures Selected(CompleteEvidence, RepositorySlots(h, k), i) <==> RepositoryHeld(h, k, i)
  {
    var xs := RepositorySlots(h, k);
    forall j | 0 <= j < |h|
      ensures xs[j].Removed? <==> Removes(h[j], k)
      ensures xs[j].Seen? <==> Observes(h[j], k)
      ensures Observes(h[j], k) ==>
                && xs[j].value == h[j].evidence.value
                && (CompleteEvidence(xs[j].value) <==> AllConclusive(h[j].evidence.value.checks))
    {
      assert xs[j] == RepositorySlot(h[j], k);
      if Observes(h[j], k) { IsCompleteIff(h[j].evidence.value); }
    }
    if 0 <= i < |h| {
      forall j | 0 <= j < |h|
        ensures NoRemovalBetween(xs, j, |xs|) <==> forall r | j < r < |h| :: !Removes(h[r], k)
      {
        if forall r | j < r < |h| :: !Removes(h[r], k) {
          forall r | j < r < |xs| ensures !xs[r].Removed? { assert !Removes(h[r], k); }
        }
        if NoRemovalBetween(xs, j, |xs|) {
          forall r | j < r < |h| ensures !Removes(h[r], k) { assert !xs[r].Removed?; }
        }
      }
    }
  }

  /** A repository is live iff the log has an observation of it to hold, and then with its evidence. */
  lemma LiveRepositoriesAreHeld(h: seq<Event>, k: string)
    ensures var m := Fold(EMPTY, h).repositories;
            && (k in m <==> exists i :: RepositoryHeld(h, k, i))
            && forall i | RepositoryHeld(h, k, i) :: m[k] == h[i].evidence.value
  {
    var xs := RepositorySlots(h, k);
    RepositoriesFoldBySlots(EMPTY, h, k);
    SlotHoldsSelected(CompleteEvidence, xs);
    forall i ensures Selected(CompleteEvidence, xs, i) <==> RepositoryHeld(h, k, i) { SelectedRepository(h, k, i); }
    forall i | RepositoryHeld(h, k, i) ensures xs[i] == Seen(h[i].evidence.value) {
      assert Selected(CompleteEvidence, xs, i);
    }
  }

  /** Event `i` deletes the repository and no later event deletes it again or observes it live. */
  ghost predicate DeletedLast(h: seq<Event>, k: string, i: int) {
    && 0 <= i < |h| && h[i].RepositoryDeleted? && h[i].domainKey == k
    && forall j | i < j < |h| :: !Observes(h[j], k) && !(h[j].RepositoryDeleted? && h[j].domainKey == k)
  }

  /** A repository is recorded as deleted iff its last delete-or-live-observation is a delete, with what that says. */
  lemma DeletedIffLastIsDelete(h: seq<Event>, k: string)
    ensures var m := Fold(EMPTY, h).deleted;
            && (k in m <==> exists i :: DeletedLast(h, k, i))
            && forall i | DeletedLast(h, k, i) :: m[k] == DeletedRepoRecord(h[i].repoName, h[i].detectedAt)
  {
    DeletedFoldsBySlots(EMPTY, h, k);
    var xs := DeletedSlots(h, k);
    SlotHoldsSelected(Never, xs);
    forall i
      ensures Selected(Never, xs, i) <==> DeletedLast(h, k, i)
      ensures DeletedLast(h, k, i) ==> xs[i].Seen? && xs[i].value == DeletedRepoRecord(h[i].repoName, h[i].detectedAt)
    {
      SelectedDelete(h, k, i);
    }
  }

  lemma SelectedDelete(h: seq<Event>, k: string, i: int)
    ensures Selected(Never, DeletedSlots(h, k), i) <==> DeletedLast(h, k, i)
  {
    var xs := DeletedSlots(h, k);
    forall j | 0 <= j < |h|
      ensures xs[j].Seen? <==> h[j].RepositoryDeleted? && h[j].domainKey == k
      ensures xs[j].Removed? <==> Observes(h[j], k)
    {
      assert xs[j] == DeletedSlot(h[j], k);
    }
    if Selected(Never, xs, i) {
      forall j | i < j < |h| ensures !Observes(h[j], k) && !(h[j].RepositoryDeleted? && h[j].domainKey == k) {
        assert !xs[j].Removed? && !xs[j].Seen?;
      }
    }
    if DeletedLast(h, k, i) {
      forall j | i < j < |xs| ensures !xs[j].Removed? && !xs[j].Seen? { assert !Observes(h[j], k); }
    }
  }

  /** Event `i` is the organisation snapshot to hold: the last successful one or, when there is none, the last. */
  ghost predicate OrgHeld(h: seq<Event>, i: int) {
    && 0 <= i < |h| && h[i].OrgStateCaptured?
    && (forall j | i < j < |h| && h[j].OrgStateCaptured? ::
          h[i].snapshot.alertStatus == Success && h[j].snapshot.alertStatus != Success)
    && (h[i].snapshot.alertStatus == Success
        || forall j | 0 <= j < i && h[j].OrgStateCaptured? :: h[j].snapshot.alertStatus != Success)
  }

  /** There is an organisation state iff the log has a snapshot to hold, and it is that one. */
  lemma OrgStateIsHeld(h: seq<Event>)
    ensures var org := Fold(EMPTY, h).orgState;
            && (org.Some? <==> exists i :: OrgHeld(h, i))
            && forall i | OrgHeld(h, i) :: org == Some(h[i].snapshot)
  {
    var xs := OrgSlots(h);
    OrgFoldsBySlots(EMPTY, h);
    SlotHoldsSelected(CompleteOrg, xs);
    forall i
      ensures Selected(CompleteOrg, xs, i) <==> OrgHeld(h, i)
      ensures OrgHeld(h, i) ==> xs[i] == Seen(h[i].snapshot)
    {
      SelectedOrg(h, i);
    }
  }

  lemma SelectedOrg(h: seq<Event>, i: int)
    ensures Selected(CompleteOrg, OrgSlots(h), i) <==> OrgHeld(h, i)
  {
    var xs := OrgSlots(h);
    forall j | 0 <= j < |h|
      ensures !xs[j].Removed? && (xs[j].Seen? <==> h[j].OrgStateCaptured?)
      ensures h[j].OrgStateCaptured? ==> xs[j].value == h[j].snapshot
    {
      assert xs[j] == OrgSlot(h[j]);
    }
    if 0 <= i < |h| {
      assert forall j | 0 <= j < |h| :: NoRemovalBetween(xs, j, |xs|);
    }
  }

  ghost predicate ObservesTeam(e: Event, k: string) {
    e.TeamStateCaptured? && !e.detached && e.domainKey == k && e.roster.Some?
  }

  ghost predicate Detaches(e: Event, k: string) { e.TeamStateCaptured? && e.detached && e.domainKey == k }

  /** Event `i` is the observation of the team to hold, as `RepositoryHeld` has it for repositories. */
  ghost predicate RosterHeld(h: seq<Event>, k: string, i: int) {
    && 0 <= i < |h| && ObservesTeam(h[i], k)
    && (forall j | i < j < |h| :: !Detaches(h[j], k))
    && (forall j | i < j < |h| && ObservesTeam(h[j], k) ::
          && h[i].roster.value.status == TeamRosterStatus.Complete
          && h[j].roster.value.status != TeamRosterStatus.Complete)
    && (h[i].roster.value.status == TeamRosterStatus.Complete
        || forall j | 0 <= j < i && ObservesTeam(h[j], k) && h[j].roster.value.status == TeamRosterStatus.Complete ::
             exists r :: j < r < |h| && Detaches(h[r], k))
  }

  lemma SelectedRoster(h: seq<Event>, k: string, i: int)
    ensures Selected(CompleteRoster, RosterSlots(h, k), i) <==> RosterHeld(h, k, i)
  {
    var xs := RosterSlots(h, k);
    forall j | 0 <= j < |h|
      ensures xs[j].Removed? <==> Detaches(h[j], k)
      ensures xs[j].Seen? <==> ObservesTeam(h[j], k)
      ensures ObservesTeam(h[j], k) ==> xs[j].value == h[j].roster.value
    {
      assert xs[j] == RosterSlot(h[j], k);
    }
    if 0 <= i < |h| {
      forall j | 0 <= j < |h|
        ensures NoRemovalBetween(xs, j, |xs|) <==> forall r | j < r < |h| :: !Detaches(h[r], k)
      {
        if forall r | j < r < |h| :: !Detaches(h[r], k) {
          forall r | j < r < |xs| ensures !xs[r].Removed? { assert !Detaches(h[r], k); }
        }
        if NoRemovalBetween(xs, j, |xs|) {
          forall r | j < r < |h| ensures !Detaches(h[r], k) { assert !xs[r].Removed?; }
        }
      }
    }
  }

  /** A team has a live roster iff the log has an observation of it to hold, and then with its roster. */
  lemma LiveRostersAreHeld(h: seq<Event>, k: string)
    ensures var m := Fold(EMPTY, h).teamRosters;
            && (k in m <==> exists i :: RosterHeld(h, k, i))
            && forall i | RosterHeld(h, k, i) :: m[k] == h[i].roster.value
  {
    var xs := RosterSlots(h, k);
    RostersFoldBySlots(EMPTY, h, k);
    SlotHoldsSelected(CompleteRoster, xs);
    forall i ensures Selected(CompleteRoster, xs, i) <==> RosterHeld(h, k, i) { SelectedRoster(h, k, i); }
    forall i | RosterHeld(h, k, i) ensures xs[i] == Seen(h[i].roster.value) { assert Selected(CompleteRoster, xs, i); }
  }

  ghost predicate LeavesGhost(e: Event, k: string) {
    Detaches(e, k) && e.roster.Some? && e.roster.value.status == TeamRosterStatus.Deleted
  }

  /** Event `i` leaves a ghost of the team and no later event detaches or observes it. */
  ghost predicate GhostLast(h: seq<Event>, k: string, i: int) {
    && 0 <= i < |h| && LeavesGhost(h[i], k)
    && forall j | i < j < |h| :: !Detaches(h[j], k) && !ObservesTeam(h[j], k)
  }

  /** A team is a ghost iff its last effective event is a detach with a deleted roster, and then with that roster. */
  lemma GhostIffLastLeavesOne(h: seq<Event>, k: string)
    ensures var m := Fold(EMPTY, h).teamGhostRosters;
            && (k in m <==> exists i :: GhostLast(h, k, i))
            && forall i | GhostLast(h, k, i) :: m[k] == h[i].roster.value
  {
    var xs := GhostSlots(h, k);
    GhostsFoldBySlots(EMPTY, h, k);
    SlotHoldsSelected(Never, xs);
    forall i
      ensures Selected(Never, xs, i) <==> GhostLast(h, k, i)
      ensures GhostLast(h, k, i) ==> xs[i].Seen? && xs[i].value == h[i].roster.value
    {
      SelectedGhost(h, k, i);
    }
  }

  lemma SelectedGhost(h: seq<Event>, k: string, i: int)
    ensures Selected(Never, GhostSlots(h, k), i) <==> GhostLast(h, k, i)
  {
    var xs := GhostSlots(h, k);
    forall j | 0 <= j < |h|
      ensures xs[j].Seen? <==> LeavesGhost(h[j], k)
      ensures xs[j].Removed? <==> (Detaches(h[j], k) && !LeavesGhost(h[j], k)) || ObservesTeam(h[j], k)
    {
      assert xs[j] == GhostSlot(h[j], k);
    }
    if Selected(Never, xs, i) {
      forall j | i < j < |h| ensures !Detaches(h[j], k) && !ObservesTeam(h[j], k) {
        assert !xs[j].Removed? && !xs[j].Seen?;
      }
    }
    if GhostLast(h, k, i) {
      forall j | i < j < |xs| ensures !xs[j].Removed? && !xs[j].Seen? { assert !Detaches(h[j], k); }
    }
  }

  // ----- Replay

  lemma StateByKeys(a: State, b: State)
    requires forall k :: Lookup(a.repositories, k) == Lookup(b.repositories, k)
    requires forall k :: Lookup(a.deleted, k) == Lookup(b.deleted, k)
    requires a.orgState == b.orgState
    requires forall k :: Lookup(a.teamRosters, k) == Lookup(b.teamRosters, k)
    requires forall k :: Lookup(a.teamGhostRosters, k) == Lookup(b.teamGhostRosters, k)
    ensures a == b
  {
    SameMap(a.repositories, b.repositories);
    SameMap(a.deleted, b.deleted);
    SameMap(a.teamRosters, b.teamRosters);
    SameMap(a.teamGhostRosters, b.teamGhostRosters);
  }

  lemma SameMap<T>(m: map<string, T>, n: map<string, T>)
    requires forall k :: Lookup(m, k) == Lookup(n, k)
    ensures m == n
  {
    forall k ensures k in m <==> k in n { assert Lookup(m, k) == Lookup(n, k); }
    forall k | k in m ensures m[k] == n[k] { assert Lookup(m, k) == Lookup(n, k); }
  }

  /** Replaying a log onto the projection it produced changes nothing. */
  lemma ReplayIsIdempotent(s: State, h: seq<Event>)
    requires ReplaySafe(s)
    ensures Fold(Fold(s, h), h) == Fold(s, h)
  {
    var t := Fold(s, h);
    FoldKeepsReplaySafe(s, h);
    OrgFoldsBySlots(s, h);
    OrgFoldsBySlots(t, h);
    SlotReplay(CompleteOrg, s.orgState, OrgSlots(h));
    forall k
      ensures Lookup(Fold(t, h).repositories, k) == Lookup(t.repositories, k)
      ensures Lookup(Fold(t, h).deleted, k) == Lookup(t.deleted, k)
    {
      RepositoriesFoldBySlots(s, h, k);
      RepositoriesFoldBySlots(t, h, k);
      SlotReplay(CompleteEvidence, Lookup(s.repositories, k), RepositorySlots(h, k));
      DeletedFoldsBySlots(s, h, k);
      DeletedFoldsBySlots(t, h, k);
      SlotReplay(Never, Lookup(s.deleted, k), DeletedSlots(h, k));
    }
    forall k
      ensures Lookup(Fold(t, h).teamRosters, k) == Lookup(t.teamRosters, k)
      ensures Lookup(Fold(t, h).teamGhostRosters, k) == Lookup(t.teamGhostRosters, k)
    {
      RostersFoldBySlots(s, h, k);
      RostersFoldBySlots(t, h, k);
      SlotReplay(CompleteRoster, Lookup(s.teamRosters, k), RosterSlots(h, k));
      GhostsFoldBySlots(s, h, k);
      GhostsFoldBySlots(t, h, k);
      SlotReplay(Never, Lookup(s.teamGhostRosters, k), GhostSlots(h, k));
    }
    StateByKeys(Fold(t, h), t);
  }

  // ----- Order robustness

  datatype Subject = Repo(key: string) | Team(key: string) | Org

  function SubjectOf(e: Event): Subject {
    match e
    case RepositoryStateCaptured(_, k, _) => Repo(k)
    case RepositoryDeleted(k, _, _) => Repo(k)
    case OrgStateCaptured(_) => Org
    case TeamStateCaptured(_, k, _) => Team(k)
  }

  function About(h: seq<Event>, subject: Subject): seq<Event> {
    if h == [] then []
    else
      var rest := About(h[..|h| - 1], subject);
      if SubjectOf(h[|h| - 1]) == subject then rest + [h[|h| - 1]] else rest
  }

  ghost predicate AgreeOn(a: State, b: State, subject: Subject) {
    match subject
    case Repo(k) => Lookup(a.repositories, k) == Lookup(b.repositories, k)
                    && Lookup(a.deleted, k) == Lookup(b.deleted, k)
    case Team(k) => Lookup(a.teamRosters, k) == Lookup(b.teamRosters, k)
                    && Lookup(a.teamGhostRosters, k) == Lookup(b.teamGhostRosters, k)
    case Org => a.orgState == b.orgState
  }

  lemma StepIsLocal(a: State, b: State, e: Event, subject: Subject)
    requires AgreeOn(a, b, subject)
    ensures SubjectOf(e) == subject ==> AgreeOn(Step(a, e), Step(b, e), subject)
    ensures SubjectOf(e) != subject ==> AgreeOn(Step(a, e), b, subject)
  {
    match subject
    case Repo(k) => StepIsLocalToRepository(a, b, e, k);
    case Team(k) => StepIsLocalToTeam(a, b, e, k);
    case Org =>
  }

  lemma StepIsLocalToRepository(a: State, b: State, e: Event, k: string)
    requires AgreeOn(a, b, Repo(k))
    ensures SubjectOf(e) == Repo(k) ==> AgreeOn(Step(a, e), Step(b, e), Repo(k))
    ensures SubjectOf(e) != Repo(k) ==> AgreeOn(Step(a, e), b, Repo(k))
  {
    RepositoryStepIsSlotwise(a, e, k);
    RepositoryStepIsSlotwise(b, e, k);
    DeletedStepIsSlotwise(a, e, k);
    DeletedStepIsSlotwise(b, e, k);
  }

  lemma StepIsLocalToTeam(a: State, b: State, e: Event, k: string)
    requires AgreeOn(a, b, Team(k))
    ensures SubjectOf(e) == Team(k) ==> AgreeOn(Step(a, e), Step(b, e), Team(k))
    ensures SubjectOf(e) != Team(k) ==> AgreeOn(Step(a, e), b, Team(k))
  {
    RosterStepIsSlotwise(a, e, k);
    RosterStepIsSlotwise(b, e, k);
    GhostStepIsSlotwise(a, e, k);
    GhostStepIsSlotwise(b, e, k);
  }

  /** Only the events about a subject bear on what the state says about it, from any state at all. */
  lemma {:induction false} OnlyOwnEventsMatter(s: State, h: seq<Event>, subject: Subject)
    ensures AgreeOn(Fold(s, h), Fold(s, About(h, subject)), subject)
  {
    if h != [] {
      var n := |h| - 1;
      OnlyOwnEventsMatter(s, h[..n], subject);
      var rest := About(h[..n], subject);
      StepIsLocal(Fold(s, h[..n]), Fold(s, rest), h[n], subject);
      assert (rest + [h[n]])[..|rest|] == rest;
    }
  }

  /** Two logs with the same events in the same order for each subject, however interleaved, fold alike. */
  lemma InterleavingIsIrrelevant(s: State, g: seq<Event>, h: seq<Event>)
    requires forall subject :: About(g, subject) == About(h, subject)
    ensures Fold(s, g) == Fold(s, h)
  {
    var a, b := Fold(s, g), Fold(s, h);
    forall subject ensures AgreeOn(a, b, subject) {
      OnlyOwnEventsMatter(s, g, subject);
      OnlyOwnEventsMatter(s, h, subject);
    }
    assert AgreeOn(a, b, Org);
    forall k
      ensures Lookup(a.repositories, k) == Lookup(b.repositories, k)
      ensures Lookup(a.deleted, k) == Lookup(b.deleted, k)
    {
      assert AgreeOn(a, b, Repo(k));
    }
    forall k
      ensures Lookup(a.teamRosters, k) == Lookup(b.teamRosters, k)
      ensures Lookup(a.teamGhostRosters, k) == Lookup(b.teamGhostRosters, k)
    {
      assert AgreeOn(a, b, Team(k));
    }
    StateByKeys(a, b);
  }

  // ----- Where replay stops being idempotent

  const UNREAD_CHECKS := RepositoryChecks(
    PolicyUnobservable(Pending, ""), ScanningUnobservable(false, ""), DependabotResult(DependabotStatus.Unknown, ""),
    Unobservable("main", Pending, None, ""), CodeownersResult(CodeownersStatus.Unknown, false, ""))

  /** An incomplete observation of `k` and then its detach. */
  function UnreadThenDetached(k: string, of: Repository): seq<Event> {
    [RepositoryStateCaptured(false, k, Some(RepositoryEvidence(of, UNREAD_CHECKS, ""))),
     RepositoryStateCaptured(true, k, None)]
  }

  /**
   Every log replays idempotently exactly from the states where no deletion record stands beside a
   complete live repository. From any other state the first pass over `UnreadThenDetached` rejects
   the incomplete observation and keeps the record, and the second pass admits it and drops the record.
   */
  lemma ReplayIsIdempotentIff(s: State)
    ensures ReplaySafe(s) <==> forall h :: Fold(Fold(s, h), h) == Fold(s, h)
  {
    if ReplaySafe(s) {
      forall h ensures Fold(Fold(s, h), h) == Fold(s, h) { ReplayIsIdempotent(s, h); }
    } else {
      var k :| k in s.deleted && k in s.repositories && s.repositories[k].IsComplete();
      var h := UnreadThenDetached(k, s.repositories[k].repository);
      FoldTwo(s, h[0], h[1]);
      FoldTwo(Fold(s, h), h[0], h[1]);
      assert k in Fold(s, h).deleted && k !in Fold(Fold(s, h), h).deleted;
    }
  }

  /** Entry `i` is the last one that is loaded under its key. */
  ghost predicate LoadedLast(entries: seq<RepositoryEvidence>, i: int) {
    && 0 <= i < |entries|
    && forall j | i < j < |entries| :: entries[j].repository.inventoryKey != entries[i].repository.inventoryKey
  }

  /** A loaded key holds its last entry, and every other key what it held before. */
  lemma {:induction false} LoadAllHolds(m: map<string, RepositoryEvidence>, entries: seq<RepositoryEvidence>)
    ensures forall i | LoadedLast(entries, i) ::
              var k := entries[i].repository.inventoryKey;
              k in LoadAll(m, entries) && LoadAll(m, entries)[k] == entries[i]
    ensures forall k | k in LoadAll(m, entries) ::
              || (k in m && LoadAll(m, entries)[k] == m[k])
              || exists i :: LoadedLast(entries, i) && entries[i].repository.inventoryKey == k
  {
    if entries != [] {
      var n := |entries| - 1;
      LoadAllHolds(m, entries[..n]);
      assert LoadedLast(entries, n);
      forall i | 0 <= i < n && entries[i].repository.inventoryKey != entries[n].repository.inventoryKey
        ensures LoadedLast(entries, i) <==> LoadedLast(entries[..n], i)
      {
        LoadedLastInPrefix(entries, i);
      }
    }
  }

  lemma LoadedLastInPrefix(entries: seq<RepositoryEvidence>, i: nat)
    requires i < |entries| - 1
    requires entries[i].repository.inventoryKey != entries[|entries| - 1].repository.inventoryKey
    ensures LoadedLast(entries, i) <==> LoadedLast(entries[..|entries| - 1], i)
  {
    var front := entries[..|entries| - 1];
    assert forall j | 0 <= j < |front| :: front[j] == entries[j];
  }

  /**
   Apply-only runs never leave those states. A bulk load leaves them exactly when the last entry loaded
   under the key of some deletion record is complete.
   */
  lemma BulkLoadCanBreakReplay(s: State, entries: seq<RepositoryEvidence>)
    requires ReplaySafe(s)
    ensures ReplaySafe(s.(repositories := LoadAll(s.repositories, entries))) <==>
              forall i | LoadedLast(entries, i) && entries[i].repository.inventoryKey in s.deleted ::
                !entries[i].IsComplete()
  {
    LoadAllHolds(s.repositories, entries);
  }

  lemma FoldTwo(s: State, e: Event, f: Event)
    ensures Fold(s, [e, f]) == Step(Step(s, e), f)
  {
    assert [e, f][..1] == [e] && [e][..0] == [];
    assert Fold(s, [e]) == Step(Fold(s, []), e);
  }
}
