/**
 Guarantees that span the event log, the projection, the publication and the inventory.
 */
module Assurance {
  import opened Wrappers
  import opened Domain
  import E = Projection
  import I = Inventory
  import P = Publication

  /** The candidate's token, if it has one, was captured from the projection of this log. */
  ghost predicate CapturedFrom(c: P.Candidate, log: seq<E.Event>) {
    !c.quality.provenance.Unordered? ==>
      c.quality.provenance.token.deletedKeys == E.Fold(E.EMPTY, log).deleted.Keys
  }

  /** The last event of the log that bears on the deletion of `key` is a delete. */
  ghost predicate EndsDeleted(log: seq<E.Event>, key: string) {
    exists i :: E.DeletedLast(log, key, i)
  }

  /**
   From the log to the page: in a run without warm starts, whose candidates were captured from logs,
   a repository reported complete is missing or incomplete in a later publication only if some
   capture was taken from a log in which the repository stood deleted.
   */
  lemma OnlyDeletionRemovesFromTheReport(
      clock: P.Clock, p: P.Candidate, run: seq<P.Candidate>, before: P.Evidence, after: P.Evidence,
      i: nat, j: nat, key: string, logOf: P.Candidate -> seq<E.Event>)
    requires i <= j <= |run| && P.NoWarmStart(p, run) && P.ReportsComplete(before, key)
    requires P.AdmittedAt(p, run, i).quality.repositories == P.ProtectRepositories(clock, before.repositories)
    requires P.AdmittedAt(p, run, j).quality.repositories == P.ProtectRepositories(clock, after.repositories)
    requires CapturedFrom(p, logOf(p)) && forall c | c in run :: CapturedFrom(c, logOf(c))
    ensures || (exists r :: r in after.repositories && r.repository.inventoryKey == key && r.IsComplete())
            || exists c :: (c == p || c in run) && EndsDeleted(logOf(c), key)
  {
    P.CompleteReportStays(clock, p, run, before, after, i, j, key);
    if m: nat :| i < m <= j && P.WitnessesDeletion(P.AdmittedAt(p, run, m).quality.provenance, key) {
      var c := P.AdmittedAt(p, run, m);
      P.AdmittedIsACandidate(p, run, m);
      E.DeletedIffLastIsDelete(logOf(c), key);
    }
  }

  /**
   From the inventory to the projection: reconciling a projection folded from any log against the
   inventory admitted from a payload removes a repository only if the payload is consistent, complete
   and not capped and does not list it, and leaves what the payload lists as it was.
   */
  lemma ReconciliationSparesTheListed(
      log: seq<E.Event>, repos: seq<Repository>, complete: bool, fetchedAt: Option<string>, maxRepos: nat,
      keys: seq<string>, detectedAt: string, key: string)
    requires I.Consistent(repos) && maxRepos > 0
    requires var s := E.Fold(E.EMPTY, log); I.KeyedByInventory(s) && I.InKeyOrder(s, keys) && key in s.repositories
    ensures var s := E.Fold(E.EMPTY, log);
            var inventory := I.Admit(I.Validated(I.FirstOccurrences(repos), complete, fetchedAt), maxRepos);
            var authority := inventory.DeletionAuthority();
            authority.Some? ==>
              (var t := E.Fold(s, I.Deletions(I.Disappeared(s, keys, authority.value), detectedAt));
               && complete && |I.FirstOccurrences(repos)| <= maxRepos
               && ((exists r :: r in repos && r.inventoryKey == key) <==> key in t.repositories)
               && (key in t.repositories ==> t.repositories[key] == s.repositories[key])
               && (key !in t.repositories ==> key in t.deleted && E.KeyDisjoint(t)))
  {
    var s := E.Fold(E.EMPTY, log);
    var inventory := I.Admit(I.Validated(I.FirstOccurrences(repos), complete, fetchedAt), maxRepos);
    I.AuthorityIffTrustworthy(repos, complete, fetchedAt, maxRepos);
    var authority := inventory.DeletionAuthority();
    if authority.Some? {
      I.DeletesExactlyTheDisappeared(s, keys, authority.value, detectedAt);
      E.FoldKeepsDisjoint(E.EMPTY, log);
      E.FoldKeepsDisjoint(s, I.Deletions(I.Disappeared(s, keys, authority.value), detectedAt));
      ListedComeFromThePayload(repos, complete, fetchedAt, maxRepos);
    }
  }

  lemma ListedComeFromThePayload(repos: seq<Repository>, complete: bool, fetchedAt: Option<string>, maxRepos: nat)
    requires I.Consistent(repos) && maxRepos > 0
    ensures var inventory := I.Admit(I.Validated(I.FirstOccurrences(repos), complete, fetchedAt), maxRepos);
            var authority := inventory.DeletionAuthority();
            authority.Some? ==>
              forall key :: key in authority.value <==> exists r :: r in repos && r.inventoryKey == key
  {
    I.AdmitsTheSmallestIds(repos, complete, fetchedAt, maxRepos);
    I.AuthorityIffTrustworthy(repos, complete, fetchedAt, maxRepos);
  }
}
