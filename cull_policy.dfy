/** The decision rule that one culling pass applies to each record of the
    hub's user listing (cull_idle in culler/cull_idle_servers.py).
    Times are whole seconds on one clock; the listing's ISO-8601 timestamps
    are taken as already converted. */
module CullPolicy {

  /** One record of the user listing, reduced to the fields the rule reads.
      `server` is the truthiness of the record's server field. */
  datatype User = User(name: string, server: bool, lastActivity: int, admin: bool)

  /** Where a pass puts a listed user: its server is shut down, it is kept
      (and its ticket refreshed), or nothing happens to it. */
  datatype Classification = Culled | Kept | Ignored

  /** The moment `timeout` seconds before `now`. */
  function CullLimit(now: int, timeout: int): int
  {
    now - timeout
  }

  predicate TimedOut(u: User, limit: int)
  {
    u.lastActivity < limit
  }

  /** The container lookup is reached only through the short-circuits of the
      cull condition: the server is active, the user has not timed out, and
      the user is not an admin. */
  predicate NeedsContainerCheck(u: User, limit: int)
  {
    u.server && !TimedOut(u, limit) && !u.admin
  }

  /** The cull condition: active, and timed out or (non-admin and container gone). */
  predicate ShouldCull(u: User, limit: int, found: string -> bool)
  {
    u.server && (TimedOut(u, limit) || (!u.admin && !found(u.name)))
  }

  /** The guard of the branch taken when the cull condition is false. */
  predicate StillActive(u: User, limit: int)
  {
    u.server && u.lastActivity > limit
  }

  /** The classification of one listed user, as the if/elif of the listing loop
      decides it. The ensures are the policy, case by case. */
  function Classify(u: User, limit: int, found: string -> bool): (c: Classification)
    // a user without a server is left alone
    ensures !u.server ==> c == Ignored
    // timing out culls, admin or not, container or not
    ensures u.server && TimedOut(u, limit) ==> c == Culled
    // a non-admin whose container is missing is culled even if recently active
    ensures NeedsContainerCheck(u, limit) && !found(u.name) ==> c == Culled
    // an admin that has not timed out is never culled
    ensures u.server && u.admin && !TimedOut(u, limit) ==> c != Culled
    // kept exactly when strictly after the limit and not culled by the container check
    ensures c == Kept <==> u.server && u.lastActivity > limit && (u.admin || found(u.name))
    // the gap left by the strict comparison: active, exactly at the limit, not culled
    ensures c == Ignored <==> !u.server || (u.lastActivity == limit && (u.admin || found(u.name)))
  {
    if ShouldCull(u, limit, found) then Culled
    else if StillActive(u, limit) then Kept
    else Ignored
  }

  /** The policy in terms of idle time against the timeout: an active user idle
      longer than the timeout is culled; a kept user has been idle for less
      than the timeout; an active admin idle for less is kept. */
  lemma ClassifyByIdleTime(u: User, now: int, timeout: int, found: string -> bool)
    ensures u.server && now - u.lastActivity > timeout ==> Classify(u, CullLimit(now, timeout), found) == Culled
    ensures Classify(u, CullLimit(now, timeout), found) == Kept ==> now - u.lastActivity < timeout
    ensures u.server && u.admin && now - u.lastActivity < timeout ==> Classify(u, CullLimit(now, timeout), found) == Kept
  {
  }

  /** When the lookup is not reached, its answer cannot change the classification. */
  lemma ClassifyIgnoresUnconsultedOracle(u: User, limit: int, f1: string -> bool, f2: string -> bool)
    requires !NeedsContainerCheck(u, limit) || f1(u.name) == f2(u.name)
    ensures Classify(u, limit, f1) == Classify(u, limit, f2)
  {
  }
}
