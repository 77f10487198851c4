/**
 The inventory authority: validate and deduplicate a payload, admit at most `maxRepos` of it, and
 grant the authority to delete only to a complete, uncapped, non-empty inventory.
 */
module Inventory {
  import opened Wrappers
  import opened Ordering
  import opened Domain
  import P = Projection

  const U32_MAX: nat := 0xFFFF_FFFF

  /** The fields of a repository, in the order in which the source compares them. */
  datatype Field =
    | Id | NodeId | Name | Visibility | Language | DefaultBranch | Archived | InventoryKey | UpdatedAt
    | HasIssues | PushedAt | CreatedAt | Description | Fork | IsEmpty | HtmlUrl | Topics | LicenseSpdx

  datatype ValidationError =
    | IdentityConflict(identityKey: string, firstId: string, secondId: string)
    | PayloadMismatch(repoId: string, field: Field)

  /** The first field, in the source's order, on which two repositories differ. */
  function FindPayloadDifference(a: Repository, b: Repository): (field: Option<Field>)
    ensures field.None? <==> a == b
  {
    if a.id != b.id then Some(Id)
    else if a.nodeId != b.nodeId then Some(NodeId)
    else if a.name != b.name then Some(Name)
    else if a.visibility != b.visibility then Some(Visibility)
    else if a.language != b.language then Some(Language)
    else if a.defaultBranch != b.defaultBranch then Some(DefaultBranch)
    else if a.archived != b.archived then Some(Archived)
    else if a.inventoryKey != b.inventoryKey then Some(InventoryKey)
    else if a.updatedAt != b.updatedAt then Some(UpdatedAt)
    else if a.hasIssues != b.hasIssues then Some(HasIssues)
    else if a.pushedAt != b.pushedAt then Some(PushedAt)
    else if a.createdAt != b.createdAt then Some(CreatedAt)
    else if a.description != b.description then Some(Description)
    else if a.fork != b.fork then Some(Fork)
    else if a.isEmpty != b.isEmpty then Some(IsEmpty)
    else if a.htmlUrl != b.htmlUrl then Some(HtmlUrl)
    else if a.topics != b.topics then Some(Topics)
    else if a.licenseSpdx != b.licenseSpdx then Some(LicenseSpdx)
    else None
  }

  ghost predicate DiffersIn(a: Repository, b: Repository, field: Field) {
    match field
    case Id => a.id != b.id
    case NodeId => a.nodeId != b.nodeId
    case Name => a.name != b.name
    case Visibility => a.visibility != b.visibility
    case Language => a.language != b.language
    case DefaultBranch => a.defaultBranch != b.defaultBranch
    case Archived => a.archived != b.archived
    case InventoryKey => a.inventoryKey != b.inventoryKey
    case UpdatedAt => a.updatedAt != b.updatedAt
    case HasIssues => a.hasIssues != b.hasIssues
    case PushedAt => a.pushedAt != b.pushedAt
    case CreatedAt => a.createdAt != b.createdAt
    case Description => a.description != b.description
    case Fork => a.fork != b.fork
    case IsEmpty => a.isEmpty != b.isEmpty
    case HtmlUrl => a.htmlUrl != b.htmlUrl
    case Topics => a.topics != b.topics
    case LicenseSpdx => a.licenseSpdx != b.licenseSpdx
  }

  ghost function Position(field: Field): nat {
    match field
    case Id => 0
    case NodeId => 1
    case Name => 2
    case Visibility => 3
    case Language => 4
    case DefaultBranch => 5
    case Archived => 6
    case InventoryKey => 7
    case UpdatedAt => 8
    case HasIssues => 9
    case PushedAt => 10
    case CreatedAt => 11
    case Description => 12
    case Fork => 13
    case IsEmpty => 14
    case HtmlUrl => 15
    case Topics => 16
    case LicenseSpdx => 17
  }

  /** The field is the first one on which the repositories differ. */
  ghost predicate IsFirstDifference(a: Repository, b: Repository, field: Field) {
    DiffersIn(a, b, field) && forall other: Field :: Position(other) < Position(field) ==> !DiffersIn(a, b, other)
  }

  lemma NoEarlierDifference(a: Repository, b: Repository, other: Field)
    requires a != b && Position(other) < Position(FindPayloadDifference(a, b).value)
    ensures !DiffersIn(a, b, other)
  {}

  /** The comparison finds the first difference there is. */
  lemma FindsTheFirstDifference(a: Repository, b: Repository)
    requires a != b
    ensures IsFirstDifference(a, b, FindPayloadDifference(a, b).value)
  {
    var field := FindPayloadDifference(a, b).value;
    assert DiffersIn(a, b, field);
    forall other: Field | Position(other) < Position(field) ensures !DiffersIn(a, b, other) {
      NoEarlierDifference(a, b, other);
    }
  }

  // ----- Validation

  predicate SharesIdentity(a: Repository, b: Repository) {
    a.id == b.id || a.inventoryKey == b.inventoryKey
  }

  /** No two entries of the payload claim one identity with different content. */
  ghost predicate Consistent(repos: seq<Repository>) {
    forall a, b | a in repos && b in repos && SharesIdentity(a, b) :: a == b
  }

  /** The entries without their repetitions, each at its first occurrence. */
  function FirstOccurrences(repos: seq<Repository>): (unique: seq<Repository>)
    ensures Elements(unique) == Elements(repos)
    ensures Distinct(unique)
  {
    if repos == [] then []
    else
      var rest, last := FirstOccurrences(repos[..|repos| - 1]), repos[|repos| - 1];
      assert repos == repos[..|repos| - 1] + [last];
      assert forall r :: r in rest <==> r in Elements(rest);
      if last in rest then rest
      else
        assert Elements(rest + [last]) == Elements(rest) + {last};
        rest + [last]
  }

  /**
   The error names the conflict between a repository and the entries before it: two of them share its
   id and its key and differ, or one shares an identity with it and differs, first in the named field.
   */
  ghost predicate Explains(error: ValidationError, seen: seq<Repository>, repo: Repository) {
    match error
    case IdentityConflict(identity, firstId, secondId) =>
      identity == "inventory_key" && firstId == repo.id && exists b, c | b in seen && c in seen ::
        b.id == repo.id && c.inventoryKey == repo.inventoryKey && c.id == secondId && b != c
    case PayloadMismatch(repoId, field) =>
      repoId == repo.id && exists b | b in seen ::
        && (b.id == repo.id || b.inventoryKey == repo.inventoryKey) && IsFirstDifference(repo, b, field)
        && forall c | c in seen && (c.id == repo.id || c.inventoryKey == repo.inventoryKey) :: c == b
  }

  ghost predicate Indexed(unique: seq<Repository>, idMap: map<string, nat>, keyMap: map<string, nat>) {
    && (forall id | id in idMap :: idMap[id] < |unique| && unique[idMap[id]].id == id)
    && (forall key | key in keyMap :: keyMap[key] < |unique| && unique[keyMap[key]].inventoryKey == key)
    && (forall i | 0 <= i < |unique| ::
          && unique[i].id in idMap && idMap[unique[i].id] == i
          && unique[i].inventoryKey in keyMap && keyMap[unique[i].inventoryKey] == i)
  }

  /** Look the repository up in both indexes; they must not name two different prior entries. */
  method MatchPrior(unique: seq<Repository>, idMap: map<string, nat>, keyMap: map<string, nat>, repo: Repository)
    returns (r: Result<Option<nat>, ValidationError>)
    requires Indexed(unique, idMap, keyMap)
    ensures r.Err? ==>
      && repo.id in idMap && repo.inventoryKey in keyMap && idMap[repo.id] != keyMap[repo.inventoryKey]
      && r.error == IdentityConflict("inventory_key", unique[idMap[repo.id]].id, unique[keyMap[repo.inventoryKey]].id)
    ensures r.Ok? && r.value.Some? ==>
      && r.value.value < |unique| && SharesIdentity(repo, unique[r.value.value])
      && (repo.id in idMap ==> idMap[repo.id] == r.value.value)
      && (repo.inventoryKey in keyMap ==> keyMap[repo.inventoryKey] == r.value.value)
    ensures r.Ok? && r.value.None? ==> repo.id !in idMap && repo.inventoryKey !in keyMap
  {
    var matches := [(if repo.id in idMap then Some(idMap[repo.id]) else None, "id"),
                    (if repo.inventoryKey in keyMap then Some(keyMap[repo.inventoryKey]) else None, "inventory_key")];
    var matched: Option<nat> := None;
    for i := 0 to 2
      invariant matched.Some? ==> matched.value < |unique| && SharesIdentity(repo, unique[matched.value])
      invariant i > 1 && matches[1].0.Some? ==> matched == matches[1].0
      invariant matched == if i > 0 && matches[0].0.Some? then matches[0].0 else if i > 1 then matches[1].0 else None
    {
      var (index, identity) := matches[i];
      if index.Some? {
        if matched.Some? {
          if matched.value != index.value {
            return Err(IdentityConflict(identity, unique[matched.value].id, unique[index.value].id));
          }
        } else {
          matched := index;
        }
      }
    }
    return Ok(matched);
  }

  /** Whether the repository repeats an accepted entry; it may not share an identity and differ in content. */
  method IsRepetition(
      ghost seen: seq<Repository>, unique: seq<Repository>, idMap: map<string, nat>, keyMap: map<string, nat>,
      repo: Repository)
    returns (r: Result<bool, ValidationError>)
    requires Indexed(unique, idMap, keyMap) && Elements(unique) == Elements(seen) && Distinct(unique)
    ensures r.Ok? && r.value ==> repo in seen
    ensures r.Ok? && !r.value ==> repo.id !in idMap && repo.inventoryKey !in keyMap
    ensures r.Err? ==> !Consistent(seen + [repo]) && Explains(r.error, seen, repo)
  {
    UniqueAreSeen(seen, unique);
    var found := MatchPrior(unique, idMap, keyMap, repo);
    if found.Err? {
      Conflict(seen, repo, unique[idMap[repo.id]], unique[keyMap[repo.inventoryKey]]);
      return Err(found.error);
    }
    if found.value.None? {
      return Ok(false);
    }
    var existing := unique[found.value.value];
    var difference := FindPayloadDifference(repo, existing);
    if difference.Some? {
      OnlyMatch(seen, unique, idMap, keyMap, repo, found.value.value);
      Mismatch(seen, repo, existing);
      return Err(PayloadMismatch(repo.id, difference.value));
    }
    return Ok(true);
  }

  method ValidateAndDeduplicate(repos: seq<Repository>) returns (r: Result<seq<Repository>, ValidationError>)
    ensures r.Ok? <==> Consistent(repos)
    ensures r.Ok? ==> r.value == FirstOccurrences(repos)
    ensures r.Err? ==>
      exists i | 0 <= i < |repos| :: Consistent(repos[..i]) && Explains(r.error, repos[..i], repos[i])
  {
    var unique: seq<Repository> := [];
    var idMap: map<string, nat> := map[];
    var keyMap: map<string, nat> := map[];
    for i := 0 to |repos|
      invariant unique == FirstOccurrences(repos[..i])
      invariant Indexed(unique, idMap, keyMap)
      invariant Consistent(repos[..i])
    {
      var repo := repos[i];
      assert repos[..i + 1] == repos[..i] + [repo] && repos[..i + 1][..i] == repos[..i];
      UniqueAreSeen(repos[..i], unique);
      var repetition := IsRepetition(repos[..i], unique, idMap, keyMap, repo);
      if repetition.Err? {
        InconsistentPrefix(repos, i + 1);
        return Err(repetition.error);
      }
      if repetition.value {
        ConsistentWith(repos[..i], repo);
      } else {
        FreshIdentity(repos[..i], unique, idMap, keyMap, repo);
        ConsistentWith(repos[..i], repo);
        IndexedWith(unique, idMap, keyMap, repo);
        idMap := idMap[repo.id := |unique|];
        keyMap := keyMap[repo.inventoryKey := |unique|];
        unique := unique + [repo];
      }
    }
    assert repos[..|repos|] == repos;
    return Ok(unique);
  }

  lemma UniqueAreSeen(seen: seq<Repository>, unique: seq<Repository>)
    requires Elements(unique) == Elements(seen)
    ensures forall s | s in seen :: s in unique
    ensures forall k | 0 <= k < |unique| :: unique[k] in seen
  {
    forall s | s in seen ensures s in unique { assert s in Elements(seen); }
    forall k | 0 <= k < |unique| ensures unique[k] in seen { assert unique[k] in Elements(unique); }
  }

  /** The matched entry is the only one seen that shares an identity with the repository. */
  lemma OnlyMatch(
      seen: seq<Repository>, unique: seq<Repository>, idMap: map<string, nat>, keyMap: map<string, nat>,
      repo: Repository, found: nat)
    requires Indexed(unique, idMap, keyMap) && Elements(unique) == Elements(seen) && found < |unique|
    requires repo.id in idMap ==> idMap[repo.id] == found
    requires repo.inventoryKey in keyMap ==> keyMap[repo.inventoryKey] == found
    ensures forall c | c in seen && SharesIdentity(repo, c) :: c == unique[found]
  {
    UniqueAreSeen(seen, unique);
  }

  lemma Conflict(seen: seq<Repository>, repo: Repository, first: Repository, second: Repository)
    requires first in seen && second in seen && first != second
    requires repo.id == first.id && repo.inventoryKey == second.inventoryKey
    ensures !Consistent(seen + [repo])
    ensures Explains(IdentityConflict("inventory_key", first.id, second.id), seen, repo)
  {
    assert SharesIdentity(repo, first) && SharesIdentity(repo, second);
    assert repo in seen + [repo] && first in seen + [repo] && second in seen + [repo];
  }

  lemma Mismatch(seen: seq<Repository>, repo: Repository, existing: Repository)
    requires existing in seen && SharesIdentity(repo, existing) && repo != existing
    requires forall c | c in seen && SharesIdentity(repo, c) :: c == existing
    ensures !Consistent(seen + [repo])
    ensures Explains(PayloadMismatch(repo.id, FindPayloadDifference(repo, existing).value), seen, repo)
  {
    assert repo in seen + [repo] && existing in seen + [repo];
    FindsTheFirstDifference(repo, existing);
  }

  lemma InconsistentPrefix(repos: seq<Repository>, n: nat)
    requires n <= |repos| && !Consistent(repos[..n])
    ensures !Consistent(repos)
  {
    assert forall r | r in repos[..n] :: r in repos;
  }

  lemma ConsistentWith(seen: seq<Repository>, repo: Repository)
    requires Consistent(seen)
    requires repo in seen || forall s | s in seen :: !SharesIdentity(repo, s)
    ensures Consistent(seen + [repo])
  {
    forall a, b | a in seen + [repo] && b in seen + [repo] && SharesIdentity(a, b) ensures a == b {
      assert (a in seen || a == repo) && (b in seen || b == repo);
      assert SharesIdentity(b, a);
    }
  }

  lemma IndexedWith(unique: seq<Repository>, idMap: map<string, nat>, keyMap: map<string, nat>, repo: Repository)
    requires Indexed(unique, idMap, keyMap) && repo.id !in idMap && repo.inventoryKey !in keyMap
    ensures Indexed(unique + [repo], idMap[repo.id := |unique|], keyMap[repo.inventoryKey := |unique|])
  {}

  lemma FreshIdentity(
      seen: seq<Repository>, unique: seq<Repository>, idMap: map<string, nat>, keyMap: map<string, nat>,
      repo: Repository)
    requires unique == FirstOccurrences(seen) && Indexed(unique, idMap, keyMap)
    requires repo.id !in idMap && repo.inventoryKey !in keyMap
    ensures forall s | s in seen :: !SharesIdentity(repo, s)
    ensures repo !in unique
  {
    forall s | s in seen ensures !SharesIdentity(repo, s) {
      assert s in Elements(seen) && s in unique;
    }
  }

  /** Accepted repositories have pairwise distinct ids and keys. */
  lemma UniqueIdentities(repos: seq<Repository>)
    requires Consistent(repos)
    ensures forall i, j | 0 <= i < j < |FirstOccurrences(repos)| ::
              !SharesIdentity(FirstOccurrences(repos)[i], FirstOccurrences(repos)[j])
  {
    var unique := FirstOccurrences(repos);
    forall i, j | 0 <= i < j < |unique| ensures !SharesIdentity(unique[i], unique[j]) {
      assert unique[i] in Elements(unique) && unique[j] in Elements(unique);
    }
  }

  /** `FirstOccurrences` keeps the input's order: positions of first occurrences increase. */
  lemma {:induction false} FirstOccurrencesInOrder(repos: seq<Repository>, i: nat, j: nat)
    requires i < j < |FirstOccurrences(repos)|
    ensures FirstAt(repos, FirstOccurrences(repos)[i]) < FirstAt(repos, FirstOccurrences(repos)[j])
  {
    var n := |repos| - 1;
    var unique, rest := FirstOccurrences(repos), FirstOccurrences(repos[..n]);
    assert repos == repos[..n] + [repos[n]];
    assert unique[i] in Elements(rest) by { assert rest[i] in Elements(rest); }
    FirstAtPrefix(repos, n, unique[i]);
    if j < |rest| {
      assert rest[j] in Elements(rest);
      FirstAtPrefix(repos, n, unique[j]);
      FirstOccurrencesInOrder(repos[..n], i, j);
    } else {
      assert repos[n] !in Elements(repos[..n]);
    }
  }

  /** The position of the first occurrence of `r`, or the length when there is none. */
  function FirstAt(repos: seq<Repository>, r: Repository): (k: nat)
    ensures k <= |repos|
    ensures k < |repos| ==> repos[k] == r
    ensures forall j | 0 <= j < k :: repos[j] != r
  {
    if repos == [] then 0
    else
      var k := FirstAt(repos[..|repos| - 1], r);
      if k < |repos| - 1 then k else if repos[|repos| - 1] == r then k else |repos|
  }

  lemma FirstAtPrefix(repos: seq<Repository>, n: nat, r: Repository)
    requires n <= |repos| && r in repos[..n]
    ensures FirstAt(repos[..n], r) == FirstAt(repos, r) < n
  {
    var j :| 0 <= j < n && repos[..n][j] == r;
    assert repos[j] == r;
    var a, b := FirstAt(repos[..n], r), FirstAt(repos, r);
    assert repos[..n][a] == repos[a];
  }

  // ----- Admission

  datatype ValidatedInventory = ValidatedInventory(
    activeRepos: seq<Repository>, complete: bool, fetchedAt: Option<string>,
    totalDiscovered: nat, archivedDiscovered: nat)

  datatype AdmittedInventory = AdmittedInventory(
    activeRepos: seq<Repository>, complete: bool, fetchedAt: Option<string>, isCapped: bool,
    totalDiscovered: nat, archivedDiscovered: nat)
  {
    /** The keys that may not be deleted, or nothing when deletion is not authorised. */
    function DeletionAuthority(): Option<set<string>> {
      if !complete || isCapped || activeRepos == [] then None
      else Some(set r | r in activeRepos :: r.inventoryKey)
    }
  }

  function CountArchived(repos: seq<Repository>): nat {
    if repos == [] then 0
    else CountArchived(repos[..|repos| - 1]) + (if repos[|repos| - 1].archived then 1 else 0)
  }

  function Validated(unique: seq<Repository>, complete: bool, fetchedAt: Option<string>): ValidatedInventory {
    var archived := CountArchived(unique);
    ValidatedInventory(unique, complete, fetchedAt, |unique|, if archived > U32_MAX then U32_MAX else archived)
  }

  predicate IdLe(a: Repository, b: Repository) { TextLe(a.id, b.id) }

  predicate IdLt(a: Repository, b: Repository) { TextLt(a.id, b.id) }

  function Admit(v: ValidatedInventory, maxRepos: nat): AdmittedInventory
    requires maxRepos > 0
  {
    var isCapped := v.totalDiscovered > maxRepos;
    var sorted := InsertionSort(IdLe, v.activeRepos);
    AdmittedInventory(
      if isCapped && |sorted| > maxRepos then sorted[..maxRepos] else sorted,
      v.complete, v.fetchedAt, isCapped, v.totalDiscovered, v.archivedDiscovered)
  }

  /** Validate the payload and admit from it. */
  method ValidateAndAdmit(repos: seq<Repository>, complete: bool, fetchedAt: Option<string>, maxRepos: nat)
    returns (r: Result<AdmittedInventory, ValidationError>)
    requires maxRepos > 0
    ensures r.Ok? <==> Consistent(repos)
    ensures r.Ok? ==> r.value == Admit(Validated(FirstOccurrences(repos), complete, fetchedAt), maxRepos)
  {
    var unique := ValidateAndDeduplicate(repos);
    if unique.Err? {
      return Err(unique.error);
    }
    return Ok(Admit(Validated(unique.value, complete, fetchedAt), maxRepos));
  }

  lemma IdsAreOrdered(repos: set<Repository>)
    ensures TotalPreorder(IdLe, repos)
    ensures Asymmetric(IdLt, repos)
  {
    TextLeTotal(set r | r in repos :: r.id);
  }

  lemma SortedByIdIsStrict(repos: seq<Repository>)
    requires Consistent(repos)
    ensures var sorted := InsertionSort(IdLe, FirstOccurrences(repos));
            && SortedBy(IdLt, sorted) && Elements(sorted) == Elements(repos)
  {
    var unique := FirstOccurrences(repos);
    var sorted := InsertionSort(IdLe, unique);
    IdsAreOrdered(Elements(unique));
    InsertionSortSorted(IdLe, unique);
    SortKeepsDistinct(IdLe, unique);
    forall i, j | 0 <= i < j < |sorted| ensures IdLt(sorted[i], sorted[j]) {
      CompareTextReverses(sorted[i].id, sorted[j].id);
      if sorted[i].id == sorted[j].id {
        assert sorted[i] in Elements(sorted) && sorted[j] in Elements(sorted);
        assert sorted[i] in repos && sorted[j] in repos && SharesIdentity(sorted[i], sorted[j]);
      }
    }
  }

  /** The `n` first elements of a strictly sorted sequence come before all its others. */
  lemma PrefixIsSmallest(sorted: seq<Repository>, n: nat)
    requires SortedBy(IdLt, sorted) && n <= |sorted|
    ensures SortedBy(IdLt, sorted[..n]) && |sorted[..n]| == n
    ensures forall a | a in sorted[..n] :: a in sorted
    ensures forall a, b | a in sorted[..n] && b in sorted && b !in sorted[..n] :: IdLt(a, b)
  {
    forall a, b | a in sorted[..n] && b in sorted && b !in sorted[..n] ensures IdLt(a, b) {
      assert sorted == sorted[..n] + sorted[n..];
      var i :| 0 <= i < n && sorted[..n][i] == a;
      var j :| 0 <= j < |sorted| - n && sorted[n..][j] == b;
      assert IdLt(sorted[i], sorted[n + j]);
    }
  }

  /** The admitted repositories are exactly the `maxRepos` smallest ids of the payload, in id order. */
  lemma AdmitsTheSmallestIds(repos: seq<Repository>, complete: bool, fetchedAt: Option<string>, maxRepos: nat)
    requires Consistent(repos) && maxRepos > 0
    ensures var unique := FirstOccurrences(repos);
            var admitted := Admit(Validated(unique, complete, fetchedAt), maxRepos);
            var chosen := admitted.activeRepos;
            && (forall i, j | 0 <= i < j < |chosen| :: CompareText(chosen[i].id, chosen[j].id) == Less)
            && |chosen| == (if |unique| < maxRepos then |unique| else maxRepos)
            && (forall a | a in chosen :: a in repos)
            && (forall a, b | a in chosen && b in repos && b !in chosen :: CompareText(a.id, b.id) == Less)
            && (admitted.isCapped <==> |unique| > maxRepos)
            && admitted.complete == complete && admitted.fetchedAt == fetchedAt
  {
    hide FirstOccurrences, InsertionSort, CompareText;
    SortedByIdIsStrict(repos);
    var unique := FirstOccurrences(repos);
    var sorted := InsertionSort(IdLe, unique);
    var n := if |unique| < maxRepos then |unique| else maxRepos;
    PrefixIsSmallest(sorted, n);
    UniqueAreSeen(repos, sorted);
    assert Admit(Validated(unique, complete, fetchedAt), maxRepos).activeRepos == sorted[..n];
  }

  lemma {:induction false} DistinctLength<T>(xs: seq<T>)
    requires Distinct(xs)
    ensures |Elements(xs)| == |xs|
  {
    if xs != [] {
      var last := xs[|xs| - 1];
      var rest := xs[..|xs| - 1];
      DistinctLength(rest);
      assert xs == rest + [last] && last !in rest;
      assert Elements(xs) == Elements(rest) + {last};
    }
  }

  function ArchivedOf(repos: set<Repository>): set<Repository> { set r | r in repos && r.archived }

  lemma {:induction false} ArchivedIsASetSize(repos: seq<Repository>)
    requires Distinct(repos)
    ensures CountArchived(repos) == |ArchivedOf(Elements(repos))|
  {
    if repos != [] {
      var rest, last := repos[..|repos| - 1], repos[|repos| - 1];
      ArchivedIsASetSize(rest);
      assert repos == rest + [last] && last !in rest;
      assert Elements(repos) == Elements(rest) + {last};
      ArchivedWith(Elements(rest), last);
    }
  }

  lemma ArchivedWith(repos: set<Repository>, last: Repository)
    requires last !in repos
    ensures |ArchivedOf(repos + {last})| == |ArchivedOf(repos)| + if last.archived then 1 else 0
  {
    if last.archived {
      assert ArchivedOf(repos + {last}) == ArchivedOf(repos) + {last};
    } else {
      assert ArchivedOf(repos + {last}) == ArchivedOf(repos);
    }
  }

  /** The totals count the distinct entries of the payload and, up to the 32-bit limit, the archived ones. */
  lemma TotalsCountTheDistinct(repos: seq<Repository>, complete: bool, fetchedAt: Option<string>, maxRepos: nat)
    requires maxRepos > 0
    ensures var admitted := Admit(Validated(FirstOccurrences(repos), complete, fetchedAt), maxRepos);
            var distinct := set r | r in repos;
            var archived := |set r | r in repos && r.archived|;
            && admitted.totalDiscovered == |distinct|
            && admitted.archivedDiscovered == (if archived > 4294967295 then 4294967295 else archived)
            && |FirstOccurrences(repos)| == |distinct|
  {
    var unique := FirstOccurrences(repos);
    DistinctLength(unique);
    ArchivedIsASetSize(unique);
    assert Elements(unique) == set r | r in repos;
    assert ArchivedOf(Elements(unique)) == set r | r in repos && r.archived;
  }

  /** Whatever the order of the pages, the payload is accepted alike and admitted as one inventory. */
  lemma PageOrderIsIrrelevant(
      a: seq<Repository>, b: seq<Repository>, complete: bool, fetchedAt: Option<string>, maxRepos: nat)
    requires multiset(a) == multiset(b) && maxRepos > 0
    ensures Consistent(a) <==> Consistent(b)
    ensures Consistent(a) ==>
              (Admit(Validated(FirstOccurrences(a), complete, fetchedAt), maxRepos)
               == Admit(Validated(FirstOccurrences(b), complete, fetchedAt), maxRepos))
  {
    SameElements(a, b);
    assert Consistent(a) <==> Consistent(b) by {
      assert forall r :: r in a <==> r in Elements(a);
      assert forall r :: r in b <==> r in Elements(b);
    }
    if Consistent(a) {
      var x, y := FirstOccurrences(a), FirstOccurrences(b);
      SortedByIdIsStrict(a);
      SortedByIdIsStrict(b);
      IdsAreOrdered(Elements(a));
      StrictlySortedUnique(IdLt, InsertionSort(IdLe, x), InsertionSort(IdLe, y));
      DistinctLength(x);
      DistinctLength(y);
      ArchivedIsASetSize(x);
      ArchivedIsASetSize(y);
    }
  }

  // ----- Deleting what disappeared

  ghost predicate InKeyOrder(s: P.State, keys: seq<string>) {
    && SortedBy(TextLt, keys) && Elements(keys) == s.repositories.Keys
    && forall k | k in keys :: k in s.repositories
  }

  /** The `(inventory key, name)` pairs of the projected repositories, in key order, that are not listed. */
  ghost function Disappeared(s: P.State, keys: seq<string>, listed: set<string>): seq<(string, string)>
    requires forall k | k in keys :: k in s.repositories
  {
    if keys == [] then []
    else
      var n := |keys| - 1;
      var repo := s.repositories[keys[n]].repository;
      Disappeared(s, keys[..n], listed)
      + (if repo.inventoryKey in listed then [] else [(repo.inventoryKey, repo.name)])
  }

  /** The deletion events for the given pairs. */
  function Deletions(gone: seq<(string, string)>, detectedAt: string): (log: seq<P.Event>)
    ensures |log| == |gone|
  {
    if gone == [] then []
    else
      var n := |gone| - 1;
      Deletions(gone[..n], detectedAt) + [P.RepositoryDeleted(gone[n].0, gone[n].1, detectedAt)]
  }

  /**
   Delete what a trustworthy inventory no longer lists. `failing` says which of the writes,
   counted from zero, do not succeed; the first failed write ends the reconciliation with its key.
   */
  method ReconcileDeleted(p: P.EvidenceProjection, inventory: AdmittedInventory, detectedAt: string, failing: set<nat>)
    returns (r: Result<(), string>, ghost keys: seq<string>, ghost done: nat)
    modifies p
    ensures inventory.DeletionAuthority().None? ==> r.Ok? && p.View() == old(p.View())
    ensures inventory.DeletionAuthority().Some? ==>
              InKeyOrder(old(p.View()), keys) &&
              (var gone := Disappeared(old(p.View()), keys, inventory.DeletionAuthority().value);
               && done <= |gone|
               && p.View() == P.Fold(old(p.View()), Deletions(gone[..done], detectedAt))
               && (forall i | 0 <= i < done :: i !in failing)
               && (r.Ok? ==> done == |gone|)
               && (r.Err? ==> done < |gone| && r.error == gone[done].0 && done in failing))
  {
    keys, done := [], 0;
    r := Ok(());
    var authority := inventory.DeletionAuthority();
    if authority.Some? {
      var pairs := p.KeyNameSnapshot();
      keys :| P.Enumerates(p.repositories, keys, pairs);
      forall k | k in keys ensures k in p.repositories { assert k in Elements(keys); }
      var gone := FilterUnlisted(p.View(), pairs, authority.value, keys);
      r, done := DeleteAll(p, gone, detectedAt, failing);
    }
  }

  method DeleteAll(p: P.EvidenceProjection, gone: seq<(string, string)>, detectedAt: string, failing: set<nat>)
    returns (r: Result<(), string>, ghost done: nat)
    modifies p
    ensures done <= |gone|
    ensures p.View() == P.Fold(old(p.View()), Deletions(gone[..done], detectedAt))
    ensures forall i | 0 <= i < done :: i !in failing
    ensures r.Ok? ==> done == |gone|
    ensures r.Err? ==> done < |gone| && r.error == gone[done].0 && done in failing
  {
    hide P.Step, P.Fold, Deletions;
    ghost var before := p.View();
    done := 0;
    assert gone[..0] == [];
    DeleteNone(before, detectedAt);
    for i := 0 to |gone|
      invariant done == i
      invariant p.View() == P.Fold(before, Deletions(gone[..i], detectedAt))
      invariant forall j | 0 <= j < i :: j !in failing
    {
      var (key, name) := gone[i];
      if i in failing {
        return Err(key), done;
      }
      p.Apply(P.RepositoryDeleted(key, name, detectedAt));
      DeleteNext(before, gone, i, detectedAt);
      done := done + 1;
    }
    return Ok(()), done;
  }

  method FilterUnlisted(ghost s: P.State, pairs: seq<(string, string)>, listed: set<string>, ghost keys: seq<string>)
    returns (gone: seq<(string, string)>)
    requires |keys| == |pairs| && forall k | k in keys :: k in s.repositories
    requires forall i | 0 <= i < |keys| ::
      pairs[i] == (s.repositories[keys[i]].repository.inventoryKey, s.repositories[keys[i]].repository.name)
    ensures gone == Disappeared(s, keys, listed)
  {
    gone := [];
    for i := 0 to |pairs|
      invariant gone == Disappeared(s, keys[..i], listed)
    {
      DisappearedNext(s, keys, i, listed);
      if pairs[i].0 !in listed {
        gone := gone + [pairs[i]];
      }
    }
    assert keys[..|keys|] == keys;
  }

  lemma DisappearedNext(s: P.State, keys: seq<string>, i: nat, listed: set<string>)
    requires i < |keys| && forall k | k in keys :: k in s.repositories
    ensures keys[i] in keys
    ensures var repo := s.repositories[keys[i]].repository;
            Disappeared(s, keys[..i + 1], listed)
            == Disappeared(s, keys[..i], listed)
             + (if repo.inventoryKey in listed then [] else [(repo.inventoryKey, repo.name)])
  {
    assert keys[..i + 1][..i] == keys[..i] && keys[..i + 1][i] == keys[i];
  }

  lemma DeleteNone(s: P.State, detectedAt: string)
    ensures P.Fold(s, Deletions([], detectedAt)) == s
  {}

  lemma DeleteNext(s: P.State, gone: seq<(string, string)>, i: nat, detectedAt: string)
    requires i < |gone|
    ensures P.Fold(s, Deletions(gone[..i + 1], detectedAt))
         == P.Step(P.Fold(s, Deletions(gone[..i], detectedAt)), P.RepositoryDeleted(gone[i].0, gone[i].1, detectedAt))
  {
    assert gone[..i + 1][..i] == gone[..i];
    var log := Deletions(gone[..i], detectedAt);
    var last := P.RepositoryDeleted(gone[i].0, gone[i].1, detectedAt);
    assert Deletions(gone[..i + 1], detectedAt) == log + [last] && (log + [last])[..|log|] == log;
  }

  // ----- Deletion safety

  ghost predicate KeyedByInventory(s: P.State) {
    forall k | k in s.repositories :: s.repositories[k].repository.inventoryKey == k
  }

  lemma {:induction false} DisappearedAreUnlisted(s: P.State, keys: seq<string>, listed: set<string>)
    requires KeyedByInventory(s) && forall k | k in keys :: k in s.repositories
    ensures forall k, name :: (k, name) in Disappeared(s, keys, listed) <==>
              k in keys && k !in listed && name == s.repositories[k].repository.name
  {
    if keys != [] {
      var n := |keys| - 1;
      assert keys == keys[..n] + [keys[n]];
      DisappearedAreUnlisted(s, keys[..n], listed);
    }
  }

  ghost function Keys(gone: seq<(string, string)>): set<string> { set pair | pair in gone :: pair.0 }

  /** Folding deletions removes exactly their keys and touches neither teams nor the organisation. */
  lemma {:induction false} FoldDeletions(s: P.State, gone: seq<(string, string)>, detectedAt: string)
    ensures var t := P.Fold(s, Deletions(gone, detectedAt));
            && t.repositories == s.repositories - Keys(gone)
            && t.deleted.Keys == s.deleted.Keys + Keys(gone)
            && t.orgState == s.orgState && t.teamRosters == s.teamRosters
            && t.teamGhostRosters == s.teamGhostRosters
  {
    if gone == [] {
      assert Deletions(gone, detectedAt) == [];
      assert Keys(gone) == {};
    } else {
      var n := |gone| - 1;
      assert gone[..n + 1] == gone;
      FoldDeletions(s, gone[..n], detectedAt);
      DeleteNext(s, gone, n, detectedAt);
      KeysOfMore(gone);
      DeleteOne(P.Fold(s, Deletions(gone[..n], detectedAt)), gone[n].0, gone[n].1, detectedAt);
      RemoveMore(s.repositories, Keys(gone[..n]), gone[n].0);
    }
  }

  lemma KeysOfMore(gone: seq<(string, string)>)
    requires gone != []
    ensures Keys(gone) == Keys(gone[..|gone| - 1]) + {gone[|gone| - 1].0}
  {
    assert gone == gone[..|gone| - 1] + [gone[|gone| - 1]];
  }

  lemma DeleteOne(s: P.State, key: string, name: string, at: string)
    ensures P.Step(s, P.RepositoryDeleted(key, name, at))
         == s.(repositories := s.repositories - {key}, deleted := s.deleted[key := P.DeletedRepoRecord(name, at)])
  {}

  lemma RemoveMore<T>(m: map<string, T>, keys: set<string>, k: string)
    ensures m - keys - {k} == m - (keys + {k})
  {}

  /** Each deleted key has its own record; the other records stay. */
  lemma {:induction false} FoldDeletionRecords(s: P.State, gone: seq<(string, string)>, detectedAt: string, k: string)
    requires forall x, y | x in gone && y in gone && x.0 == y.0 :: x == y
    ensures var t := P.Fold(s, Deletions(gone, detectedAt));
            && (k in s.deleted && k !in Keys(gone) ==> k in t.deleted && t.deleted[k] == s.deleted[k])
            && (forall name | (k, name) in gone ::
                  k in t.deleted && t.deleted[k] == P.DeletedRepoRecord(name, detectedAt))
  {
    if gone == [] {
      assert Deletions(gone, detectedAt) == [];
    } else {
      var n := |gone| - 1;
      assert gone == gone[..n] + [gone[n]] && gone[..n + 1] == gone;
      FoldDeletionRecords(s, gone[..n], detectedAt, k);
      DeleteNext(s, gone, n, detectedAt);
      KeysOfMore(gone);
      DeleteOne(P.Fold(s, Deletions(gone[..n], detectedAt)), gone[n].0, gone[n].1, detectedAt);
      assert gone[n] in gone && (k == gone[n].0 ==> (k, gone[n].1) == gone[n]);
    }
  }

  /**
   Deletion safety: with every write accepted, reconciliation deletes exactly the projected keys that
   the inventory does not list and records each once; nothing the inventory lists is removed.
   */
  lemma DeletesExactlyTheDisappeared(s: P.State, keys: seq<string>, listed: set<string>, detectedAt: string)
    requires KeyedByInventory(s) && InKeyOrder(s, keys)
    ensures var t := P.Fold(s, Deletions(Disappeared(s, keys, listed), detectedAt));
            var removed := s.repositories.Keys - listed;
            && t.repositories == s.repositories - removed
            && t.deleted.Keys == s.deleted.Keys + removed
            && (forall k | k in removed ::
                  t.deleted[k] == P.DeletedRepoRecord(s.repositories[k].repository.name, detectedAt))
            && (forall k | k in s.deleted && k !in removed :: t.deleted[k] == s.deleted[k])
            && t.orgState == s.orgState && t.teamRosters == s.teamRosters
            && t.teamGhostRosters == s.teamGhostRosters
  {
    var gone := Disappeared(s, keys, listed);
    var removed := s.repositories.Keys - listed;
    DisappearedAreUnlisted(s, keys, listed);
    forall x, y | x in gone && y in gone && x.0 == y.0 ensures x == y {
      assert (x.0, x.1) in gone && (y.0, y.1) in gone;
    }
    FoldDeletions(s, gone, detectedAt);
    KeysOfDisappeared(s, keys, listed);
    forall k | k in removed
      ensures P.Fold(s, Deletions(gone, detectedAt)).deleted[k]
           == P.DeletedRepoRecord(s.repositories[k].repository.name, detectedAt)
    {
      assert k in Elements(keys);
      FoldDeletionRecords(s, gone, detectedAt, k);
    }
    forall k | k in s.deleted && k !in removed
      ensures P.Fold(s, Deletions(gone, detectedAt)).deleted[k] == s.deleted[k]
    {
      FoldDeletionRecords(s, gone, detectedAt, k);
    }
  }

  /**
   Deletion is safe wherever it stops: after any number of the deletions every listed repository is as
   it was, and each repository that is gone was not listed and has its record.
   */
  lemma DeletionIsSafeAtEveryWrite(s: P.State, keys: seq<string>, listed: set<string>, done: nat, detectedAt: string)
    requires KeyedByInventory(s) && InKeyOrder(s, keys) && done <= |Disappeared(s, keys, listed)|
    ensures var t := P.Fold(s, Deletions(Disappeared(s, keys, listed)[..done], detectedAt));
            && t.repositories.Keys <= s.repositories.Keys
            && (forall k | k in t.repositories :: t.repositories[k] == s.repositories[k])
            && (forall k | k in s.repositories && k in listed :: k in t.repositories)
            && (forall k | k in s.repositories && k !in t.repositories ::
                  && k !in listed && k in t.deleted
                  && t.deleted[k] == P.DeletedRepoRecord(s.repositories[k].repository.name, detectedAt))
            && (forall k | k in s.deleted && (k in t.repositories || k !in s.repositories) ::
                  k in t.deleted && t.deleted[k] == s.deleted[k])
            && t.orgState == s.orgState && t.teamRosters == s.teamRosters
            && t.teamGhostRosters == s.teamGhostRosters
  {
    var gone := Disappeared(s, keys, listed);
    var part := gone[..done];
    DisappearedAreUnlisted(s, keys, listed);
    assert forall pair | pair in part :: pair in gone && (pair.0, pair.1) == pair;
    FoldDeletions(s, part, detectedAt);
    var t := P.Fold(s, Deletions(part, detectedAt));
    forall k | k in s.repositories && k !in t.repositories
      ensures k !in listed && k in t.deleted
      ensures t.deleted[k] == P.DeletedRepoRecord(s.repositories[k].repository.name, detectedAt)
    {
      var pair :| pair in part && pair.0 == k;
      assert (k, pair.1) in gone && (k, pair.1) in part;
      FoldDeletionRecords(s, part, detectedAt, k);
    }
    forall k | k in s.deleted && (k in t.repositories || k !in s.repositories)
      ensures k in t.deleted && t.deleted[k] == s.deleted[k]
    {
      forall pair | pair in part ensures pair.0 != k { assert (pair.0, pair.1) in gone && pair.0 in Keys(part); }
      FoldDeletionRecords(s, part, detectedAt, k);
    }
  }

  lemma KeysOfDisappeared(s: P.State, keys: seq<string>, listed: set<string>)
    requires KeyedByInventory(s) && InKeyOrder(s, keys)
    ensures Keys(Disappeared(s, keys, listed)) == s.repositories.Keys - listed
  {
    var gone := Disappeared(s, keys, listed);
    DisappearedAreUnlisted(s, keys, listed);
    forall k ensures k in Keys(gone) <==> k in s.repositories.Keys - listed {
      assert k in s.repositories.Keys <==> k in Elements(keys);
      if k in Keys(gone) {
        var pair :| pair in gone && pair.0 == k;
        assert (k, pair.1) in gone;
      }
      if k in s.repositories.Keys - listed {
        assert (k, s.repositories[k].repository.name) in gone;
        assert (k, s.repositories[k].repository.name).0 == k;
      }
    }
  }

  /** A capped, incomplete or empty inventory deletes nothing; any other may delete all it does not list. */
  lemma AuthorityIffTrustworthy(repos: seq<Repository>, complete: bool, fetchedAt: Option<string>, maxRepos: nat)
    requires Consistent(repos) && maxRepos > 0
    ensures var admitted := Admit(Validated(FirstOccurrences(repos), complete, fetchedAt), maxRepos);
            var authority := admitted.DeletionAuthority();
            && (authority.Some? <==> complete && repos != [] && |FirstOccurrences(repos)| <= maxRepos)
            && (authority.Some? ==> forall r | r in repos :: r.inventoryKey in authority.value)
  {
    SortedByIdIsStrict(repos);
    var sorted := InsertionSort(IdLe, FirstOccurrences(repos));
    assert repos != [] ==> repos[0] in Elements(repos);
    assert sorted != [] ==> sorted[0] in Elements(sorted);
    forall r | r in repos ensures r in sorted { assert r in Elements(sorted); }
  }
}
