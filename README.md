# Idle-server culler: one reconciliation pass

A model of `cull_idle`, the reconciliation pass of a JupyterHub idle-server
culler. A pass does four things in order:

1. It lists the hub's users.
2. It classifies each user in listing order. A user is culled when its server is active and it
   has either been idle past the timeout or, as a non-admin, lost its container. A user is kept
   when its server is active and it was last active after the cull limit. Everyone else is
   ignored.
3. It issues a DELETE of every culled user's server and refreshes the ticket of every kept user,
   unless homes are local.
4. It awaits the DELETEs in issue order. An HTTP error removes the user's row from the hub's
   record store. The ticket is revoked either way, unless homes are local.

The outside world is given as inputs:

- the clock, as integer seconds;
- the listing, as a `Listing`, where a failed fetch aborts the pass;
- the container lookup, as an oracle `string -> bool`;
- the outcome of awaiting each DELETE, as an oracle `string -> TerminationResult`: success, an HTTP
  error, or any other exception, which escapes and aborts the pass.

Every outward effect goes into an action log, in the order it happens: `ListUsers`,
`QueryContainer`, `Terminate`, `Refresh` (the check-ticket script), `DeleteRecord` and `Revoke`
(the delete-ticket script). The log records each container lookup, so the short-circuit order of
the cull condition can be seen and proved.

The project has three modules:

- `CullPolicy` (cull_policy.dfy): the user record, the cull limit, the cull and keep conditions,
  and `Classify`.
- `CullPass` (cull_pass.dfy): the action log and the functions that specify the two loops and the
  whole pass. The imperative `CullIdle` runs the listing loop (`ClassifyUsers`) and then the
  result loop (`CollectResults`), and is proved equal to `Pass`.
- `CullProperties` (cull_properties.dfy): lemmas about the specification functions. Among them:
  what happens to each kind of user, the order of DELETEs and revocations, the record deletion
  that comes right before its revocation, and the pass's independence from container answers it
  never asks for.

The model follows the code where it departs from the natural reading of the policy. That reading
keeps every active session with `last_activity >= cull_limit`. The code's second branch uses a
strict `last_activity > cull_limit`. So an active user last seen exactly at the limit, who is an
admin or still has a container, is neither culled nor refreshed. `Classify` and
`IgnoredUserUntouched` state this gap.

## Model

| member | source | states |
|---|---|---|
| CullPolicy.ClassifyByIdleTime | culler/cull_idle_servers.py:63-84 | with the limit taken `timeout` seconds before `now`: an active user idle longer than the timeout is culled; a kept user has been idle less than the timeout; an active admin idle less than the timeout is kept |
| CullPolicy.Classify | culler/cull_idle_servers.py:75-84 | case by case: no server means ignored; timed out means culled, admin or not, container or not; a non-admin within the limit with no container is culled; an admin within the limit is never culled; kept iff after the limit and (admin or container present); ignored iff no server, or exactly at the limit and not culled |
| CullPolicy.ClassifyIgnoresUnconsultedOracle | culler/cull_idle_servers.py:75 | when the short-circuit does not reach the container lookup, the lookup's answer cannot change the classification |
| CullPass.ServerUrl | culler/cull_idle_servers.py:77 | the DELETE target starts with the hub URL, has the expected length, and carries the user name at a fixed position, so the name can be read back |
| CullPass.ResultEffects | culler/cull_idle_servers.py:89-97 | collecting one outcome touches only that name, deletes its record iff the DELETE got an HTTP error, revokes its ticket iff homes are not local, does each at most once, and puts the deletion before the revocation |
| CullPass.FirstOtherFailure | culler/cull_idle_servers.py:86-89 | the position before which every awaited DELETE succeeded or got an HTTP error, and at which (if inside the list) one raised an uncaught exception |
| CullPass.ResultPhase | culler/cull_idle_servers.py:86-97 | the result loop aborts iff some queued DELETE raises something other than an HTTP error; when it completes, every queued name has been handled |
| CullPass.CullIdle | culler/cull_idle_servers.py:55-97 | the log and status of the imperative pass equal those of `Pass`: the listing request, then each user's effects in listing order, then the result loop over the culled names in issue order |
| CullPass.ClassifyUsers | culler/cull_idle_servers.py:68-84 | the listing loop emits exactly the per-user effects in listing order and queues exactly the culled names in listing order |
| CullPass.CollectResults | culler/cull_idle_servers.py:86-97 | the result loop emits the per-name record deletions and revocations in issue order, up to the first uncaught exception, and reports whether the pass aborted |
| CullProperties.UserEffectsFacts | culler/cull_idle_servers.py:75-84 | each of a user's effects is about that user; the container lookup happens iff the short-circuit reaches it and comes first; the DELETE goes to the user's server iff culled; the refresh happens iff kept and homes are not local |
| CullProperties.ClassificationLogMembers | culler/cull_idle_servers.py:69-84 | an action is in the listing loop's log iff it is among the effects of some listed user |
| CullProperties.CulledNamesMembers | culler/cull_idle_servers.py:75-81 | a name is queued for termination iff some listed user of that name is culled |
| CullProperties.ListingLoopIgnoresUnconsultedOracle | culler/cull_idle_servers.py:69-84 | two container oracles that agree on every user whose lookup is reached give the same listing-loop log and the same queue |
| CullProperties.PassIgnoresUnconsultedOracle | culler/cull_idle_servers.py:63-97 | the whole pass depends on the container oracle only at the users whose lookup is reached |
| CullProperties.UserTerminations | culler/cull_idle_servers.py:75-81 | a user's effects contain a DELETE exactly when it is culled, and only the one for its own server |
| CullProperties.ListingLoopTerminations | culler/cull_idle_servers.py:69-81 | the listing loop's DELETEs, in order, are one per queued name, to that name's server, in queue (listing) order |
| CullProperties.PassTerminations | culler/cull_idle_servers.py:69-88 | the DELETEs of the whole pass, in order, are exactly one per culled user in listing order; the result loop issues none |
| CullProperties.ResultLogMembers | culler/cull_idle_servers.py:86-97 | an action is in the result loop's log iff it is among the result effects of some walked name |
| CullProperties.RecordDeletedBeforeRevoke | culler/cull_idle_servers.py:89-97 | outside local-home mode, every record deletion is immediately followed by the revocation of the same user's ticket |
| CullProperties.RevokeFollowsRecordDeletion | culler/cull_idle_servers.py:89-97 | the revocation of a user whose DELETE got an HTTP error comes immediately after the deletion of that user's record |
| CullProperties.ResultPhaseActions | culler/cull_idle_servers.py:86-97 | the result loop only deletes records and revokes tickets, and only for queued names. Among the names reached before an uncaught exception, it deletes a record iff that DELETE got an HTTP error and revokes a ticket iff homes are not local |
| CullProperties.ResultLogRevocations | culler/cull_idle_servers.py:86-97 | the result loop's revocations, in order, are one per walked name in issue order, or none in local-home mode |
| CullProperties.ResultLogDeletions | culler/cull_idle_servers.py:86-95 | the result loop's record deletions, in order, are one per walked name whose DELETE got an HTTP error, in issue order |
| CullProperties.ActionsAboutUser | culler/cull_idle_servers.py:69-97 | with unique names, every action of a pass about a listed user comes from that user's own classification or, if it was culled, from collecting its own DELETE |
| CullProperties.InactiveUserUntouched | culler/cull_idle_servers.py:75-84 | a user without a server is never looked up, terminated, refreshed, deleted or revoked |
| CullProperties.IgnoredUserUntouched | culler/cull_idle_servers.py:75-84 | an active user that is neither culled nor kept, the boundary case of the strict comparison, gets nothing but the container lookup |
| CullProperties.ContainerLookups | culler/cull_idle_servers.py:75 | a listed user's container is looked up iff the user is active, not timed out and not an admin, so admins and timed-out users are never looked up |
| CullProperties.CulledUserFate | culler/cull_idle_servers.py:75-97 | a culled user's server gets its DELETE; in a completed pass its record is deleted iff the DELETE got an HTTP error, and its ticket is revoked iff homes are not local |
| CullProperties.CulledUserNeverRefreshed | culler/cull_idle_servers.py:75-84 | with unique names, no action of a pass refreshes a culled user's ticket, so the culled and refreshed users are disjoint |
| CullProperties.KeptUserFate | culler/cull_idle_servers.py:82-84 | a kept user's ticket is refreshed iff homes are not local, and the user is never terminated, deleted or revoked |
| CullProperties.PassRevocations | culler/cull_idle_servers.py:84-97 | in a completed pass the ticket revocations, in order, are one per culled user in listing order, or none in local-home mode; the listing loop revokes nothing |
| CullProperties.PassDeletions | culler/cull_idle_servers.py:69-95 | the record deletions of a pass, in order, are one per culled user whose DELETE got an HTTP error, in listing order, among the culled users reached before an uncaught exception, and so among all culled users when the pass completes; the listing loop deletes no record |
| CullProperties.ListingFailureAborts | culler/cull_idle_servers.py:60-66 | a failed listing request aborts the pass with no effect beyond the request itself |
| CullProperties.TwoPasses | culler/cull_idle_servers.py:55-97 | two passes over the same inputs give the same log and status, since nothing is carried between passes |
| CullProperties.TimedOutUserCulled | culler/cull_idle_servers.py:75-97 | a user idle 700 s against a 600 s timeout is culled without a container lookup: DELETE of its server, then its ticket is revoked |
| CullProperties.FailedTerminationDeletesRecord | culler/cull_idle_servers.py:86-97 | the same user when its DELETE gets a 404: its record is deleted, then its ticket is revoked |
| CullProperties.ActiveUserKept | culler/cull_idle_servers.py:75-84 | a non-admin idle 100 s with its container present is looked up, kept and refreshed |

## Left out

- Asynchronous I/O: the Tornado coroutine, the `AsyncHTTPClient` fetches, the futures, and the
  `IOLoop`/`PeriodicCallback` scheduling. Each DELETE is recorded when it is issued, and its
  outcome is read from an oracle when the result loop reaches it.
- Completion order of the DELETE requests: they may finish in any order, but the source awaits
  them in issue order, and only the order of awaiting decides the effects.
- Decoding: JSON decoding of the listing and ISO-8601 parsing of `last_activity`. Timestamps come
  in as integers on the same clock as `now`. So the model does not show what the source does when
  it compares a parsed timestamp that carries a time zone with the naive `utcnow()`.
- Sub-second time: the source compares `datetime` values to the microsecond, and the model compares
  whole seconds. In the source, the gap left by the strict comparison (`<` at line 75, `>` at line
  82) is a single instant. In the model it is a whole second: `Classify` and `IgnoredUserUntouched`
  give that second's users the treatment the source gives only to users at that exact instant.
- The container client lookup: it is an oracle. An exception from it, which the source does not
  catch, is not modelled.
- The ticket shell scripts: they are the `Refresh` and `Revoke` actions. Their exit codes are
  ignored by the source too.
- The SQLite connection and its delete statement: they are the `DeleteRecord` action. The SQL
  text is not modelled. `DeleteRecord(name)` stands for removing exactly that user's row, which
  holds only for a name without a single quote. Line 93 splices the name into the statement
  unescaped. So a name with a quote either makes the statement malformed, and it raises, or
  changes what it deletes: the name `a''b` deletes the row of user `a'b`, and the name
  `x' or '1'='1` deletes every row.
- Failures of the ticket scripts and of the record delete: the model treats `Refresh`, `Revoke`
  and `DeleteRecord` as actions that always succeed. In the source, `call` raises when `sudo`
  cannot be started (lines 44 and 48). The `sqlite3` calls raise when the database cannot be
  opened or stays locked, or when a quoted name makes the statement malformed (line 93). No
  handler catches these: the only `except` around the `sqlite3` calls is the `except HTTPError`
  at line 89, and they run inside its handler. So the source would abort the pass part-way. A
  failed `check_ticket` (line 84) stops the listing loop, so later users are never looked up, sent
  a DELETE or refreshed. A failure at lines 91-97 skips the current name's revocation and every
  later name. Every lemma about the pass log holds only under this assumption.
- The HTTP status code: it is carried in `HttpFailure` but used only in a log line, so no action
  includes it.
- Logging, and the `__main__` block: option definitions, the environment token, the periodic
  callback, and the `cull` lambda, which calls `cull_idle` with three of its four arguments.
- Repeated names: DELETE outcomes are given per name. A listing that repeated a name would give
  both requests the same outcome. The hub's user names are unique, and the lemmas that need this
  require it (`UniqueNames`).
- URL escaping: the DELETE target is plain concatenation of the hub URL, the path and the name,
  as in the source.
