/** One culling pass (cull_idle): list the users, classify each in listing
    order, issue a DELETE for every culled server, then walk the issued
    requests in order and repair the local bookkeeping. The outside world is
    given as oracles, and every outward effect is recorded in an action log. */
module CullPass {
  import opened CullPolicy

  /** The outward effects of a pass, in the order they happen. */
  datatype Action =
    | ListUsers(target: string)                  // GET of the hub's user listing
    | QueryContainer(name: string)               // container lookup for jupyter-<name>
    | Terminate(name: string, target: string)    // DELETE of the user's server
    | Refresh(name: string)                      // check_ticket.sh for the user
    | DeleteRecord(name: string)                 // the user's row removed (a name without a quote)
    | Revoke(name: string)                       // delete_ticket.sh for the user

  /** The action concerns user `n`. */
  predicate About(a: Action, n: string)
  {
    !a.ListUsers? && a.name == n
  }

  /** The answer to the listing request: the decoded users, or a failed fetch. */
  datatype Listing = Listed(users: seq<User>) | ListingFailed

  /** What awaiting one DELETE produces: success, an HTTP error with its
      status code, or any other exception, which is not caught. */
  datatype TerminationResult = Succeeded | HttpFailure(code: int) | OtherFailure

  /** A pass either runs to its end or is aborted by an uncaught exception. */
  datatype Status = Completed | Aborted

  datatype PassResult = PassResult(log: seq<Action>, status: Status)

  function UsersUrl(url: string): string
  {
    url + "/api/users"
  }

  /** The DELETE target for a user's server; the name can be read back from it. */
  function ServerUrl(url: string, name: string): (target: string)
    ensures |target| == |url| + |name| + 18
    ensures target[..|url|] == url
    ensures target[|url| + 11..|url| + 11 + |name|] == name
  {
    url + "/api/users/" + name + "/server"
  }

  /** Effects of the listing loop for one user: the container lookup when the
      short-circuit reaches it, then the DELETE or the ticket refresh. */
  function UserEffects(url: string, limit: int, localHome: bool, u: User, found: string -> bool): seq<Action>
  {
    (if NeedsContainerCheck(u, limit) then [QueryContainer(u.name)] else [])
    + match Classify(u, limit, found)
      case Culled => [Terminate(u.name, ServerUrl(url, u.name))]
      case Kept => if localHome then [] else [Refresh(u.name)]
      case Ignored => []
  }

  /** Effects of the whole listing loop, user by user in listing order. */
  function ClassificationLog(url: string, limit: int, localHome: bool, users: seq<User>, found: string -> bool): seq<Action>
  {
    if users == [] then []
    else ClassificationLog(url, limit, localHome, users[..|users| - 1], found)
         + UserEffects(url, limit, localHome, users[|users| - 1], found)
  }

  /** The names whose DELETE is queued, in listing order (the `futures` list). */
  function CulledNames(limit: int, users: seq<User>, found: string -> bool): seq<string>
  {
    if users == [] then []
    else CulledNames(limit, users[..|users| - 1], found)
         + (if Classify(users[|users| - 1], limit, found) == Culled then [users[|users| - 1].name] else [])
  }

  /** Effects of collecting one termination that did not raise an uncaught
      exception: the record is deleted after an HTTP error, and the ticket is
      revoked, outcome regardless, unless homes are local. Only `Succeeded`
      and `HttpFailure` reach this in a pass: `ResultPhase` applies it to the
      names before the first `OtherFailure`, whose exception leaves the pass
      instead. Given `OtherFailure`, it yields what `Succeeded` would. */
  function ResultEffects(localHome: bool, name: string, r: TerminationResult): (effects: seq<Action>)
    ensures forall a :: a in effects ==> (a.DeleteRecord? || a.Revoke?) && a.name == name
    ensures DeleteRecord(name) in effects <==> r.HttpFailure?
    ensures Revoke(name) in effects <==> !localHome
    // each effect at most once
    ensures |effects| == (if r.HttpFailure? then 1 else 0) + (if localHome then 0 else 1)
    ensures r.HttpFailure? && !localHome ==> effects == [DeleteRecord(name), Revoke(name)]
  {
    (if r.HttpFailure? then [DeleteRecord(name)] else [])
    + (if localHome then [] else [Revoke(name)])
  }

  /** Effects of collecting the terminations of `names`, in issue order. It is
      the source's behaviour for names none of which raises an uncaught
      exception, which is how `ResultPhase` uses it. */
  function ResultLog(localHome: bool, names: seq<string>, outcome: string -> TerminationResult): seq<Action>
  {
    if names == [] then []
    else ResultLog(localHome, names[..|names| - 1], outcome)
         + ResultEffects(localHome, names[|names| - 1], outcome(names[|names| - 1]))
  }

  /** The position of the first issued name whose termination raises an
      uncaught exception, or the number of names when none does. */
  function FirstOtherFailure(names: seq<string>, outcome: string -> TerminationResult): (k: nat)
    ensures k <= |names|
    ensures forall j :: 0 <= j < k ==> !outcome(names[j]).OtherFailure?
    ensures k < |names| ==> outcome(names[k]).OtherFailure?
  {
    if names == [] || outcome(names[0]).OtherFailure? then 0
    else 1 + FirstOtherFailure(names[1..], outcome)
  }

  /** The result loop: names before the first uncaught exception are handled,
      then the exception leaves the pass. */
  function ResultPhase(localHome: bool, names: seq<string>, outcome: string -> TerminationResult): (r: PassResult)
    ensures r.status == Aborted <==> exists n :: n in names && outcome(n).OtherFailure?
    ensures r.status == Completed ==> r.log == ResultLog(localHome, names, outcome)
  {
    var k := FirstOtherFailure(names, outcome);
    assert k == |names| ==> names[..k] == names;
    PassResult(ResultLog(localHome, names[..k], outcome), if k < |names| then Aborted else Completed)
  }

  /** A whole pass: the listing request, the listing loop, the result loop. */
  function Pass(url: string, now: int, timeout: int, localHome: bool, listing: Listing,
                found: string -> bool, outcome: string -> TerminationResult): PassResult
  {
    match listing
    case ListingFailed => PassResult([ListUsers(UsersUrl(url))], Aborted)
    case Listed(users) =>
      var limit := CullLimit(now, timeout);
      var results := ResultPhase(localHome, CulledNames(limit, users, found), outcome);
      PassResult([ListUsers(UsersUrl(url))] + ClassificationLog(url, limit, localHome, users, found) + results.log,
                 results.status)
  }

  /** cull_idle. `listing` is what the GET of the user listing yields,
      `containerFound` answers the container lookup, and `terminate` gives what
      awaiting the DELETE for a name yields. */
  method CullIdle(url: string, now: int, timeout: int, localHome: bool, listing: Listing,
                  containerFound: string -> bool, terminate: string -> TerminationResult)
    returns (log: seq<Action>, status: Status)
    ensures PassResult(log, status) == Pass(url, now, timeout, localHome, listing, containerFound, terminate)
  {
    var limit := CullLimit(now, timeout);
    log := [ListUsers(UsersUrl(url))];
    if listing.ListingFailed? {
      status := Aborted;
      return;
    }
    var classified, issued := ClassifyUsers(url, limit, localHome, listing.users, containerFound);
    var collected;
    collected, status := CollectResults(localHome, issued, terminate);
    log := log + classified + collected;
  }

  /** The listing loop: classify each user in listing order, queue the DELETE
      of a culled server or refresh the ticket of a kept user. */
  method ClassifyUsers(url: string, limit: int, localHome: bool, users: seq<User>, containerFound: string -> bool)
    returns (log: seq<Action>, issued: seq<string>)
    ensures log == ClassificationLog(url, limit, localHome, users, containerFound)
    ensures issued == CulledNames(limit, users, containerFound)
  {
    log, issued := [], [];
    var i := 0;
    while i < |users|
      invariant 0 <= i <= |users|
      invariant log == ClassificationLog(url, limit, localHome, users[..i], containerFound)
      invariant issued == CulledNames(limit, users[..i], containerFound)
    {
      var user := users[i];
      ghost var before := log;
      var cull := false;
      if user.server {
        if user.lastActivity < limit {
          cull := true;
        } else if !user.admin {
          log := log + [QueryContainer(user.name)];
          cull := !containerFound(user.name);
        }
      }
      if cull {
        log := log + [Terminate(user.name, ServerUrl(url, user.name))];
        issued := issued + [user.name];
      } else if user.server && user.lastActivity > limit {
        if !localHome {
          log := log + [Refresh(user.name)];
        }
      }
      assert log == before + UserEffects(url, limit, localHome, user, containerFound);
      assert users[..i + 1][..i] == users[..i];
      i := i + 1;
    }
    assert users[..i] == users;
  }

  /** The result loop: await each DELETE in issue order; an HTTP error removes
      the user's record, and the ticket is revoked either way unless homes are
      local. Any other exception leaves the pass at once. */
  method CollectResults(localHome: bool, issued: seq<string>, terminate: string -> TerminationResult)
    returns (log: seq<Action>, status: Status)
    ensures PassResult(log, status) == ResultPhase(localHome, issued, terminate)
  {
    log := [];
    var aborted := false;
    var j := 0;
    while j < |issued| && !aborted
      invariant 0 <= j <= |issued|
      invariant forall k :: 0 <= k < j ==> !terminate(issued[k]).OtherFailure?
      invariant aborted ==> j < |issued| && terminate(issued[j]).OtherFailure?
      invariant log == ResultLog(localHome, issued[..j], terminate)
      decreases |issued| - j, !aborted
    {
      var name := issued[j];
      ghost var before := log;
      var r := terminate(name);
      if r.OtherFailure? {
        aborted := true;
      } else {
        if r.HttpFailure? {
          log := log + [DeleteRecord(name)];
        }
        if !localHome {
          log := log + [Revoke(name)];
        }
        assert log == before + ResultEffects(localHome, name, r);
        assert issued[..j + 1][..j] == issued[..j];
        j := j + 1;
      }
    }
    status := if aborted then Aborted else Completed;
    assert j == FirstOtherFailure(issued, terminate);
  }
}
