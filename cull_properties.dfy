/** What one culling pass does to each listed user, and in which order,
    proved about the specification functions of CullPass (and so, through
    CullIdle's postcondition, about the pass itself). */
module CullProperties {
  import opened CullPolicy
  import opened CullPass

  /** User names are the hub's keys: no two records of a listing share one. */
  predicate UniqueNames(users: seq<User>)
  {
    forall i, j :: 0 <= i < |users| && 0 <= j < |users| && users[i].name == users[j].name ==> i == j
  }

  lemma SameNameSameUser(users: seq<User>, u: User, v: User)
    requires UniqueNames(users) && u in users && v in users && u.name == v.name
    ensures u == v
  {
    var i :| 0 <= i < |users| && users[i] == u;
    var j :| 0 <= j < |users| && users[j] == v;
  }

  // ---------------------------------------------------------------------------
  // The listing loop
  // ---------------------------------------------------------------------------

  /** What the listing loop does for one user: every effect is about that user;
      the container lookup happens exactly when the short-circuit reaches it and
      comes first; the DELETE, aimed at the user's server, exactly when culled;
      the ticket refresh exactly when kept outside local-home mode. */
  lemma UserEffectsFacts(url: string, limit: int, localHome: bool, u: User, found: string -> bool)
    ensures var effects := UserEffects(url, limit, localHome, u, found);
            && (forall a :: a in effects ==> About(a, u.name))
            && (forall a :: a in effects ==> a.QueryContainer? || a.Terminate? || a.Refresh?)
            && (forall a :: a in effects && a.Terminate? ==> a.target == ServerUrl(url, u.name))
            && (QueryContainer(u.name) in effects <==> NeedsContainerCheck(u, limit))
            && (NeedsContainerCheck(u, limit) ==> effects[0] == QueryContainer(u.name))
            && (Terminate(u.name, ServerUrl(url, u.name)) in effects <==> Classify(u, limit, found) == Culled)
            && (Refresh(u.name) in effects <==> Classify(u, limit, found) == Kept && !localHome)
  {
  }

  /** The listing loop's log is made of the per-user effects of listed users. */
  lemma {:induction false} ClassificationLogMembers(url: string, limit: int, localHome: bool, users: seq<User>,
                                                    found: string -> bool, a: Action)
    ensures a in ClassificationLog(url, limit, localHome, users, found)
        <==> exists u :: u in users && a in UserEffects(url, limit, localHome, u, found)
  {
    if users != [] {
      var init, last := users[..|users| - 1], users[|users| - 1];
      ClassificationLogMembers(url, limit, localHome, init, found, a);
      assert users == init + [last];
      if a in UserEffects(url, limit, localHome, last, found) {
        assert last in users;
      }
    }
  }

  /** A name is queued for termination exactly when a listed user of that
      name is culled. */
  lemma {:induction false} CulledNamesMembers(limit: int, users: seq<User>, found: string -> bool, n: string)
    ensures n in CulledNames(limit, users, found)
        <==> exists u :: u in users && u.name == n && Classify(u, limit, found) == Culled
  {
    if users != [] {
      var init, last := users[..|users| - 1], users[|users| - 1];
      CulledNamesMembers(limit, init, found, n);
      assert users == init + [last];
      if last.name == n && Classify(last, limit, found) == Culled {
        assert last in users;
      }
    }
  }

  /** Container answers for users whose lookup is never reached do not
      change the pass: the log, the queued names and the status agree. */
  lemma {:induction false} ListingLoopIgnoresUnconsultedOracle(url: string, limit: int, localHome: bool, users: seq<User>,
                                                               f1: string -> bool, f2: string -> bool)
    requires forall u :: u in users && NeedsContainerCheck(u, limit) ==> f1(u.name) == f2(u.name)
    ensures ClassificationLog(url, limit, localHome, users, f1) == ClassificationLog(url, limit, localHome, users, f2)
    ensures CulledNames(limit, users, f1) == CulledNames(limit, users, f2)
  {
    if users != [] {
      var init, last := users[..|users| - 1], users[|users| - 1];
      assert users == init + [last];
      ListingLoopIgnoresUnconsultedOracle(url, limit, localHome, init, f1, f2);
      assert last in users;
      ClassifyIgnoresUnconsultedOracle(last, limit, f1, f2);
    }
  }

  lemma PassIgnoresUnconsultedOracle(url: string, now: int, timeout: int, localHome: bool, users: seq<User>,
                                     f1: string -> bool, f2: string -> bool, outcome: string -> TerminationResult)
    requires forall u :: u in users && NeedsContainerCheck(u, CullLimit(now, timeout)) ==> f1(u.name) == f2(u.name)
    ensures Pass(url, now, timeout, localHome, Listed(users), f1, outcome)
         == Pass(url, now, timeout, localHome, Listed(users), f2, outcome)
  {
    ListingLoopIgnoresUnconsultedOracle(url, CullLimit(now, timeout), localHome, users, f1, f2);
  }

  // ---------------------------------------------------------------------------
  // Order of the DELETE requests and of the revocations
  // ---------------------------------------------------------------------------

  /** The actions of a log that `keep` selects, in log order. */
  function Select(log: seq<Action>, keep: Action -> bool): seq<Action>
  {
    if log == [] then []
    else Select(log[..|log| - 1], keep) + (if keep(log[|log| - 1]) then [log[|log| - 1]] else [])
  }

  predicate IsTerminate(a: Action) { a.Terminate? }
  predicate IsRevoke(a: Action) { a.Revoke? }
  predicate IsDeleteRecord(a: Action) { a.DeleteRecord? }

  /** One DELETE of a user's server per name, in the order of `names`. */
  function TerminateRequests(url: string, names: seq<string>): seq<Action>
  {
    if names == [] then []
    else TerminateRequests(url, names[..|names| - 1]) + [Terminate(names[|names| - 1], ServerUrl(url, names[|names| - 1]))]
  }

  /** One revocation per name, in the order of `names`. */
  function Revocations(names: seq<string>): seq<Action>
  {
    if names == [] then []
    else Revocations(names[..|names| - 1]) + [Revoke(names[|names| - 1])]
  }

  /** One record deletion per name whose termination got an HTTP error, in
      the order of `names`. */
  function Deletions(names: seq<string>, outcome: string -> TerminationResult): seq<Action>
  {
    if names == [] then []
    else Deletions(names[..|names| - 1], outcome)
         + (if outcome(names[|names| - 1]).HttpFailure? then [DeleteRecord(names[|names| - 1])] else [])
  }

  lemma {:induction false} SelectConcat(a: seq<Action>, b: seq<Action>, keep: Action -> bool)
    ensures Select(a + b, keep) == Select(a, keep) + Select(b, keep)
  {
    if b != [] {
      var init, last := b[..|b| - 1], b[|b| - 1];
      assert (a + b)[..|a + b| - 1] == a + init;
      assert (a + b)[|a + b| - 1] == last;
      SelectConcat(a, init, keep);
      assert Select(b, keep) == Select(init, keep) + (if keep(last) then [last] else []);
    } else {
      assert a + b == a;
    }
  }

  lemma {:induction false} SelectNone(log: seq<Action>, keep: Action -> bool)
    requires forall a :: a in log ==> !keep(a)
    ensures Select(log, keep) == []
  {
    if log != [] {
      assert log[|log| - 1] in log;
      SelectNone(log[..|log| - 1], keep);
    }
  }

  lemma UserTerminations(url: string, limit: int, localHome: bool, u: User, found: string -> bool)
    ensures Select(UserEffects(url, limit, localHome, u, found), IsTerminate)
         == if Classify(u, limit, found) == Culled then [Terminate(u.name, ServerUrl(url, u.name))] else []
  {
    var query: seq<Action> := if NeedsContainerCheck(u, limit) then [QueryContainer(u.name)] else [];
    var rest: seq<Action> := match Classify(u, limit, found)
      case Culled => [Terminate(u.name, ServerUrl(url, u.name))]
      case Kept => if localHome then [] else [Refresh(u.name)]
      case Ignored => [];
    SelectConcat(query, rest, IsTerminate);
    assert Select(query, IsTerminate) == [] by { SelectNone(query, IsTerminate); }
    if rest != [] {
      assert rest[..0] == [];
    }
  }

  /** The DELETE requests of the listing loop, in order, are one per queued
      name, in the order the names were queued (listing order). */
  lemma {:induction false} ListingLoopTerminations(url: string, limit: int, localHome: bool, users: seq<User>,
                                                   found: string -> bool)
    ensures Select(ClassificationLog(url, limit, localHome, users, found), IsTerminate)
         == TerminateRequests(url, CulledNames(limit, users, found))
  {
    if users != [] {
      var init, last := users[..|users| - 1], users[|users| - 1];
      ListingLoopTerminations(url, limit, localHome, init, found);
      SelectConcat(ClassificationLog(url, limit, localHome, init, found), UserEffects(url, limit, localHome, last, found), IsTerminate);
      UserTerminations(url, limit, localHome, last, found);
      var names := CulledNames(limit, init, found);
      if Classify(last, limit, found) == Culled {
        var queued := names + [last.name];
        assert queued[..|queued| - 1] == names;
        assert TerminateRequests(url, queued) == TerminateRequests(url, names) + [Terminate(last.name, ServerUrl(url, last.name))];
      } else {
        assert CulledNames(limit, users, found) == names;
      }
    }
  }

  /** The DELETE requests of a whole pass are exactly one per culled user,
      to that user's server, in listing order; the result loop issues none. */
  lemma PassTerminations(url: string, now: int, timeout: int, localHome: bool, users: seq<User>,
                         found: string -> bool, outcome: string -> TerminationResult)
    ensures Select(Pass(url, now, timeout, localHome, Listed(users), found, outcome).log, IsTerminate)
         == TerminateRequests(url, CulledNames(CullLimit(now, timeout), users, found))
  {
    var limit := CullLimit(now, timeout);
    var names := CulledNames(limit, users, found);
    var cl := ClassificationLog(url, limit, localHome, users, found);
    var rp := ResultPhase(localHome, names, outcome);
    var head: seq<Action> := [ListUsers(UsersUrl(url))];
    SelectConcat(head + cl, rp.log, IsTerminate);
    SelectConcat(head, cl, IsTerminate);
    SelectNone(head, IsTerminate);
    forall a | a in rp.log ensures !IsTerminate(a) {
      ResultPhaseActions(localHome, names, outcome, a, "");
    }
    SelectNone(rp.log, IsTerminate);
    ListingLoopTerminations(url, limit, localHome, users, found);
  }

  // ---------------------------------------------------------------------------
  // The result loop
  // ---------------------------------------------------------------------------

  /** The result loop's log is made of the per-name result effects of the
      names it walks. */
  lemma {:induction false} ResultLogMembers(localHome: bool, names: seq<string>, outcome: string -> TerminationResult, a: Action)
    ensures a in ResultLog(localHome, names, outcome)
        <==> exists n :: n in names && a in ResultEffects(localHome, n, outcome(n))
  {
    if names != [] {
      var init, last := names[..|names| - 1], names[|names| - 1];
      ResultLogMembers(localHome, init, outcome, a);
      assert names == init + [last];
      if a in ResultEffects(localHome, last, outcome(last)) {
        assert last in names;
      }
    }
  }

  /** A record deletion is immediately followed by the revocation of the same
      user's ticket, unless homes are local. */
  lemma {:induction false} RecordDeletedBeforeRevoke(localHome: bool, names: seq<string>,
                                                     outcome: string -> TerminationResult, p: nat)
    requires !localHome
    requires p < |ResultLog(localHome, names, outcome)|
    requires ResultLog(localHome, names, outcome)[p].DeleteRecord?
    ensures var log := ResultLog(localHome, names, outcome);
            p + 1 < |log| && log[p + 1] == Revoke(log[p].name)
  {
    var init, last := names[..|names| - 1], names[|names| - 1];
    var prev := ResultLog(localHome, init, outcome);
    var effects := ResultEffects(localHome, last, outcome(last));
    if p < |prev| {
      RecordDeletedBeforeRevoke(localHome, init, outcome, p);
    } else {
      assert effects[p - |prev|].DeleteRecord?;
      assert effects == [DeleteRecord(last), Revoke(last)];
    }
  }

  /** The revocation of a user whose termination got an HTTP error comes
      right after the deletion of that user's record. */
  lemma {:induction false} RevokeFollowsRecordDeletion(localHome: bool, names: seq<string>,
                                                       outcome: string -> TerminationResult, q: nat)
    requires q < |ResultLog(localHome, names, outcome)|
    requires ResultLog(localHome, names, outcome)[q].Revoke?
    requires outcome(ResultLog(localHome, names, outcome)[q].name).HttpFailure?
    ensures var log := ResultLog(localHome, names, outcome);
            0 < q && log[q - 1] == DeleteRecord(log[q].name)
  {
    var init, last := names[..|names| - 1], names[|names| - 1];
    var prev := ResultLog(localHome, init, outcome);
    var effects := ResultEffects(localHome, last, outcome(last));
    if q < |prev| {
      RevokeFollowsRecordDeletion(localHome, init, outcome, q);
    } else {
      assert effects[q - |prev|] in effects;
      assert effects == [DeleteRecord(last), Revoke(last)];
    }
  }

  /** The result loop touches only queued names, and only with record deletions
      and revocations; of the names it reaches (those before the first uncaught
      exception) it deletes the record exactly after an HTTP error and revokes
      the ticket exactly outside local-home mode. */
  lemma ResultPhaseActions(localHome: bool, names: seq<string>, outcome: string -> TerminationResult, a: Action, n: string)
    ensures var r := ResultPhase(localHome, names, outcome);
            a in r.log ==> (a.DeleteRecord? || a.Revoke?) && a.name in names
    ensures var r := ResultPhase(localHome, names, outcome);
            var reached := names[..FirstOtherFailure(names, outcome)];
            && (DeleteRecord(n) in r.log <==> n in reached && outcome(n).HttpFailure?)
            && (Revoke(n) in r.log <==> n in reached && !localHome)
  {
    var reached := names[..FirstOtherFailure(names, outcome)];
    ResultLogMembers(localHome, reached, outcome, a);
    ResultLogMembers(localHome, reached, outcome, DeleteRecord(n));
    ResultLogMembers(localHome, reached, outcome, Revoke(n));
  }

  /** Collecting one name revokes its ticket once, unless homes are local. */
  lemma EffectRevocations(localHome: bool, name: string, r: TerminationResult)
    ensures Select(ResultEffects(localHome, name, r), IsRevoke) == if localHome then [] else [Revoke(name)]
  {
    var deletion: seq<Action> := if r.HttpFailure? then [DeleteRecord(name)] else [];
    var revocation: seq<Action> := if localHome then [] else [Revoke(name)];
    SelectConcat(deletion, revocation, IsRevoke);
    SelectNone(deletion, IsRevoke);
    if !localHome {
      assert revocation[..0] == [];
    }
  }

  /** In a completed result loop the revocations, in order, are one per
      queued name in issue order, unless homes are local. */
  lemma {:induction false} ResultLogRevocations(localHome: bool, names: seq<string>, outcome: string -> TerminationResult)
    ensures Select(ResultLog(localHome, names, outcome), IsRevoke) == if localHome then [] else Revocations(names)
  {
    if names != [] {
      var init, last := names[..|names| - 1], names[|names| - 1];
      ResultLogRevocations(localHome, init, outcome);
      SelectConcat(ResultLog(localHome, init, outcome), ResultEffects(localHome, last, outcome(last)), IsRevoke);
      EffectRevocations(localHome, last, outcome(last));
    }
  }

  /** Collecting one name deletes its record once after an HTTP error. */
  lemma EffectDeletions(localHome: bool, name: string, r: TerminationResult)
    ensures Select(ResultEffects(localHome, name, r), IsDeleteRecord) == if r.HttpFailure? then [DeleteRecord(name)] else []
  {
    var deletion: seq<Action> := if r.HttpFailure? then [DeleteRecord(name)] else [];
    var revocation: seq<Action> := if localHome then [] else [Revoke(name)];
    SelectConcat(deletion, revocation, IsDeleteRecord);
    SelectNone(revocation, IsDeleteRecord);
    if r.HttpFailure? {
      assert deletion[..0] == [];
    }
  }

  /** The result loop's record deletions, in order, are one per walked name
      whose termination got an HTTP error, in issue order. */
  lemma {:induction false} ResultLogDeletions(localHome: bool, names: seq<string>, outcome: string -> TerminationResult)
    ensures Select(ResultLog(localHome, names, outcome), IsDeleteRecord) == Deletions(names, outcome)
  {
    if names != [] {
      var init, last := names[..|names| - 1], names[|names| - 1];
      ResultLogDeletions(localHome, init, outcome);
      SelectConcat(ResultLog(localHome, init, outcome), ResultEffects(localHome, last, outcome(last)), IsDeleteRecord);
      EffectDeletions(localHome, last, outcome(last));
    }
  }

  // ---------------------------------------------------------------------------
  // A whole pass, user by user
  // ---------------------------------------------------------------------------

  /** Every action of a pass that names a listed user comes from that user's
      own classification or, if it was culled, from the collection of its
      termination. */
  lemma ActionsAboutUser(url: string, now: int, timeout: int, localHome: bool, users: seq<User>,
                         found: string -> bool, outcome: string -> TerminationResult, u: User, a: Action)
    requires UniqueNames(users) && u in users
    requires a in Pass(url, now, timeout, localHome, Listed(users), found, outcome).log
    ensures var limit := CullLimit(now, timeout);
            About(a, u.name) ==>
              || a in UserEffects(url, limit, localHome, u, found)
              || (Classify(u, limit, found) == Culled && a in ResultEffects(localHome, u.name, outcome(u.name)))
  {
    var limit := CullLimit(now, timeout);
    var names := CulledNames(limit, users, found);
    var reached := names[..FirstOtherFailure(names, outcome)];
    var cl := ClassificationLog(url, limit, localHome, users, found);
    if About(a, u.name) && a in cl {
      ClassificationLogMembers(url, limit, localHome, users, found, a);
      var v :| v in users && a in UserEffects(url, limit, localHome, v, found);
      UserEffectsFacts(url, limit, localHome, v, found);
      SameNameSameUser(users, u, v);
    } else if About(a, u.name) && a in ResultLog(localHome, reached, outcome) {
      ResultLogMembers(localHome, reached, outcome, a);
      var m :| m in reached && a in ResultEffects(localHome, m, outcome(m));
      assert m in names;
      CulledNamesMembers(limit, users, found, m);
      var v :| v in users && v.name == m && Classify(v, limit, found) == Culled;
      SameNameSameUser(users, u, v);
    }
  }

  /** A user without a server is never looked up, terminated, refreshed,
      deleted from the record store or revoked. */
  lemma InactiveUserUntouched(url: string, now: int, timeout: int, localHome: bool, users: seq<User>,
                              found: string -> bool, outcome: string -> TerminationResult, u: User)
    requires UniqueNames(users) && u in users && !u.server
    ensures forall a :: a in Pass(url, now, timeout, localHome, Listed(users), found, outcome).log ==> !About(a, u.name)
  {
    forall a | a in Pass(url, now, timeout, localHome, Listed(users), found, outcome).log
      ensures !About(a, u.name)
    {
      ActionsAboutUser(url, now, timeout, localHome, users, found, outcome, u, a);
    }
  }

  /** An active user that is neither culled nor kept (last active exactly at
      the limit, and an admin or with its container present) gets nothing but
      the container lookup. */
  lemma IgnoredUserUntouched(url: string, now: int, timeout: int, localHome: bool, users: seq<User>,
                             found: string -> bool, outcome: string -> TerminationResult, u: User)
    requires UniqueNames(users) && u in users
    requires Classify(u, CullLimit(now, timeout), found) == Ignored
    ensures forall a :: a in Pass(url, now, timeout, localHome, Listed(users), found, outcome).log && About(a, u.name)
                    ==> a == QueryContainer(u.name)
  {
    forall a | a in Pass(url, now, timeout, localHome, Listed(users), found, outcome).log && About(a, u.name)
      ensures a == QueryContainer(u.name)
    {
      ActionsAboutUser(url, now, timeout, localHome, users, found, outcome, u, a);
    }
  }

  /** The container of a listed user is looked up exactly when the cull
      condition's short-circuit reaches it: an active non-admin that has not
      timed out. Admins and timed-out users are never looked up. */
  lemma ContainerLookups(url: string, now: int, timeout: int, localHome: bool, users: seq<User>,
                         found: string -> bool, outcome: string -> TerminationResult, u: User)
    requires UniqueNames(users) && u in users
    ensures QueryContainer(u.name) in Pass(url, now, timeout, localHome, Listed(users), found, outcome).log
        <==> NeedsContainerCheck(u, CullLimit(now, timeout))
  {
    var limit := CullLimit(now, timeout);
    var cl := ClassificationLog(url, limit, localHome, users, found);
    var log := Pass(url, now, timeout, localHome, Listed(users), found, outcome).log;
    UserEffectsFacts(url, limit, localHome, u, found);
    if QueryContainer(u.name) in log {
      ActionsAboutUser(url, now, timeout, localHome, users, found, outcome, u, QueryContainer(u.name));
    }
    if NeedsContainerCheck(u, limit) {
      ClassificationLogMembers(url, limit, localHome, users, found, QueryContainer(u.name));
      assert QueryContainer(u.name) in cl;
    }
  }

  /** A culled user's server gets its DELETE; once the pass completes, its
      record is deleted exactly when that DELETE got an HTTP error, and its
      ticket is revoked exactly outside local-home mode. */
  lemma CulledUserFate(url: string, now: int, timeout: int, localHome: bool, users: seq<User>,
                       found: string -> bool, outcome: string -> TerminationResult, u: User)
    requires u in users && Classify(u, CullLimit(now, timeout), found) == Culled
    ensures var r := Pass(url, now, timeout, localHome, Listed(users), found, outcome);
            Terminate(u.name, ServerUrl(url, u.name)) in r.log
    ensures var r := Pass(url, now, timeout, localHome, Listed(users), found, outcome);
            r.status == Completed ==>
              && (DeleteRecord(u.name) in r.log <==> outcome(u.name).HttpFailure?)
              && (Revoke(u.name) in r.log <==> !localHome)
  {
    var limit := CullLimit(now, timeout);
    var names := CulledNames(limit, users, found);
    var cl := ClassificationLog(url, limit, localHome, users, found);
    var rp := ResultPhase(localHome, names, outcome);
    UserEffectsFacts(url, limit, localHome, u, found);
    ClassificationLogMembers(url, limit, localHome, users, found, Terminate(u.name, ServerUrl(url, u.name)));
    // the listing loop neither deletes records nor revokes tickets
    ListingLoopActionKinds(url, limit, localHome, users, found);
    assert DeleteRecord(u.name) !in cl && Revoke(u.name) !in cl;
    assert rp.log == ResultLog(localHome, names[..FirstOtherFailure(names, outcome)], outcome);
    CulledNamesMembers(limit, users, found, u.name);
    ResultPhaseActions(localHome, names, outcome, ListUsers(""), u.name);
    if rp.status == Completed {
      assert names[..FirstOtherFailure(names, outcome)] == names;
    }
  }

  /** A culled user's ticket is never refreshed: the culled and refreshed
      users of a pass are disjoint. */
  lemma CulledUserNeverRefreshed(url: string, now: int, timeout: int, localHome: bool, users: seq<User>,
                                 found: string -> bool, outcome: string -> TerminationResult, u: User)
    requires UniqueNames(users) && u in users && Classify(u, CullLimit(now, timeout), found) == Culled
    ensures forall a :: a in Pass(url, now, timeout, localHome, Listed(users), found, outcome).log && About(a, u.name)
                    ==> !a.Refresh?
  {
    UserEffectsFacts(url, CullLimit(now, timeout), localHome, u, found);
    forall a | a in Pass(url, now, timeout, localHome, Listed(users), found, outcome).log && About(a, u.name)
      ensures !a.Refresh?
    {
      ActionsAboutUser(url, now, timeout, localHome, users, found, outcome, u, a);
    }
  }

  /** A kept user's ticket is refreshed exactly outside local-home mode, and
      the user is never terminated, deleted from the record store or revoked. */
  lemma KeptUserFate(url: string, now: int, timeout: int, localHome: bool, users: seq<User>,
                     found: string -> bool, outcome: string -> TerminationResult, u: User)
    requires UniqueNames(users) && u in users && Classify(u, CullLimit(now, timeout), found) == Kept
    ensures var log := Pass(url, now, timeout, localHome, Listed(users), found, outcome).log;
            Refresh(u.name) in log <==> !localHome
    ensures var log := Pass(url, now, timeout, localHome, Listed(users), found, outcome).log;
            forall a :: a in log && About(a, u.name) ==> a.Refresh? || a.QueryContainer?
  {
    var limit := CullLimit(now, timeout);
    var log := Pass(url, now, timeout, localHome, Listed(users), found, outcome).log;
    UserEffectsFacts(url, limit, localHome, u, found);
    forall a | a in log && About(a, u.name) ensures a.Refresh? || a.QueryContainer? {
      ActionsAboutUser(url, now, timeout, localHome, users, found, outcome, u, a);
    }
    if Refresh(u.name) in log {
      ActionsAboutUser(url, now, timeout, localHome, users, found, outcome, u, Refresh(u.name));
    }
    if !localHome {
      ClassificationLogMembers(url, limit, localHome, users, found, Refresh(u.name));
    }
  }

  /** In a completed pass outside local-home mode the revocations, in order,
      are one per culled user in listing order; the listing loop revokes nothing. */
  lemma PassRevocations(url: string, now: int, timeout: int, localHome: bool, users: seq<User>,
                        found: string -> bool, outcome: string -> TerminationResult)
    requires Pass(url, now, timeout, localHome, Listed(users), found, outcome).status == Completed
    ensures Select(Pass(url, now, timeout, localHome, Listed(users), found, outcome).log, IsRevoke)
         == if localHome then [] else Revocations(CulledNames(CullLimit(now, timeout), users, found))
  {
    var limit := CullLimit(now, timeout);
    var names := CulledNames(limit, users, found);
    var cl := ClassificationLog(url, limit, localHome, users, found);
    var rp := ResultPhase(localHome, names, outcome);
    var head: seq<Action> := [ListUsers(UsersUrl(url))];
    SelectConcat(head + cl, rp.log, IsRevoke);
    SelectConcat(head, cl, IsRevoke);
    SelectNone(head, IsRevoke);
    forall a | a in cl ensures !IsRevoke(a) {
      ClassificationLogMembers(url, limit, localHome, users, found, a);
      var v :| v in users && a in UserEffects(url, limit, localHome, v, found);
      UserEffectsFacts(url, limit, localHome, v, found);
    }
    SelectNone(cl, IsRevoke);
    ResultLogRevocations(localHome, names, outcome);
  }

  /** The listing loop only looks up containers, issues DELETEs and refreshes
      tickets. */
  lemma ListingLoopActionKinds(url: string, limit: int, localHome: bool, users: seq<User>, found: string -> bool)
    ensures forall a :: a in ClassificationLog(url, limit, localHome, users, found) ==>
              a.QueryContainer? || a.Terminate? || a.Refresh?
  {
    forall a | a in ClassificationLog(url, limit, localHome, users, found)
      ensures a.QueryContainer? || a.Terminate? || a.Refresh?
    {
      ClassificationLogMembers(url, limit, localHome, users, found, a);
      var v :| v in users && a in UserEffects(url, limit, localHome, v, found);
      UserEffectsFacts(url, limit, localHome, v, found);
    }
  }

  /** A pass over a listing is the request, the listing loop's log and the
      result loop's log over the names reached before an uncaught exception. */
  lemma PassLog(url: string, now: int, timeout: int, localHome: bool, users: seq<User>,
                found: string -> bool, outcome: string -> TerminationResult)
    ensures var limit := CullLimit(now, timeout);
            var names := CulledNames(limit, users, found);
            Pass(url, now, timeout, localHome, Listed(users), found, outcome).log
            == [ListUsers(UsersUrl(url))] + ClassificationLog(url, limit, localHome, users, found)
               + ResultLog(localHome, names[..FirstOtherFailure(names, outcome)], outcome)
  {
  }

  /** The listing loop deletes no record, so the deletions after it are those
      of the result loop. */
  lemma DeletionsAfterListing(url: string, limit: int, localHome: bool, users: seq<User>, found: string -> bool,
                              names: seq<string>, outcome: string -> TerminationResult)
    ensures Select([ListUsers(UsersUrl(url))] + ClassificationLog(url, limit, localHome, users, found)
                   + ResultLog(localHome, names, outcome), IsDeleteRecord)
         == Deletions(names, outcome)
  {
    var head: seq<Action> := [ListUsers(UsersUrl(url))];
    var cl := ClassificationLog(url, limit, localHome, users, found);
    SelectConcat(head + cl, ResultLog(localHome, names, outcome), IsDeleteRecord);
    SelectConcat(head, cl, IsDeleteRecord);
    SelectNone(head, IsDeleteRecord);
    ListingLoopActionKinds(url, limit, localHome, users, found);
    SelectNone(cl, IsDeleteRecord);
    ResultLogDeletions(localHome, names, outcome);
  }

  /** The record deletions of a pass, in order, are one per culled user whose
      DELETE got an HTTP error, in listing order, among the culled users reached
      before an uncaught exception (all of them when the pass completes); the
      listing loop deletes no record. */
  lemma PassDeletions(url: string, now: int, timeout: int, localHome: bool, users: seq<User>,
                      found: string -> bool, outcome: string -> TerminationResult)
    ensures var names := CulledNames(CullLimit(now, timeout), users, found);
            (Select(Pass(url, now, timeout, localHome, Listed(users), found, outcome).log, IsDeleteRecord)
             == Deletions(names[..FirstOtherFailure(names, outcome)], outcome))
    ensures Pass(url, now, timeout, localHome, Listed(users), found, outcome).status == Completed ==>
            (Select(Pass(url, now, timeout, localHome, Listed(users), found, outcome).log, IsDeleteRecord)
             == Deletions(CulledNames(CullLimit(now, timeout), users, found), outcome))
  {
    var limit := CullLimit(now, timeout);
    var names := CulledNames(limit, users, found);
    var k := FirstOtherFailure(names, outcome);
    PassLog(url, now, timeout, localHome, users, found, outcome);
    DeletionsAfterListing(url, limit, localHome, users, found, names[..k], outcome);
    if k == |names| {
      assert names[..k] == names;
    }
  }

  /** A failed listing request aborts the pass before anything else happens. */
  lemma ListingFailureAborts(url: string, now: int, timeout: int, localHome: bool,
                             found: string -> bool, outcome: string -> TerminationResult)
    ensures Pass(url, now, timeout, localHome, ListingFailed, found, outcome)
         == PassResult([ListUsers(url + "/api/users")], Aborted)
  {
  }

  /** Two passes over the same listing, clock, container answers and DELETE
      outcomes produce the same effects. This follows directly from CullIdle's
      postcondition, which fixes its result as a function of its inputs: the
      pass keeps no state between calls. */
  method TwoPasses(url: string, now: int, timeout: int, localHome: bool, listing: Listing,
                   found: string -> bool, outcome: string -> TerminationResult)
    returns (first: PassResult, second: PassResult)
    ensures first == second
  {
    var log, status := CullIdle(url, now, timeout, localHome, listing, found, outcome);
    first := PassResult(log, status);
    log, status := CullIdle(url, now, timeout, localHome, listing, found, outcome);
    second := PassResult(log, status);
  }

  // ---------------------------------------------------------------------------
  // Worked cases
  // ---------------------------------------------------------------------------

  /** Idle 700 s against a 600 s timeout: culled without a container lookup,
      DELETE of the user's server, ticket revoked. */
  lemma TimedOutUserCulled(url: string, now: int, found: string -> bool, outcome: string -> TerminationResult)
    requires outcome("alice") == Succeeded
    ensures Pass(url, now, 600, false, Listed([User("alice", true, now - 700, false)]), found, outcome)
         == PassResult([ListUsers(url + "/api/users"), Terminate("alice", url + "/api/users/alice/server"), Revoke("alice")],
                       Completed)
  {
    var users := [User("alice", true, now - 700, false)];
    assert users[..0] == [];
    assert url + "/api/users/" + "alice" + "/server" == url + "/api/users/alice/server";
    assert ClassificationLog(url, now - 600, false, users, found) == [Terminate("alice", url + "/api/users/alice/server")];
    assert CulledNames(now - 600, users, found) == ["alice"];
    assert ["alice"][..0] == [];
    assert FirstOtherFailure(["alice"], outcome) == 1;
    assert ["alice"][..1] == ["alice"];
  }

  /** The same user when the DELETE gets a 404: the record is deleted, then
      the ticket revoked. */
  lemma FailedTerminationDeletesRecord(url: string, now: int, found: string -> bool, outcome: string -> TerminationResult)
    requires outcome("alice") == HttpFailure(404)
    ensures Pass(url, now, 600, false, Listed([User("alice", true, now - 700, false)]), found, outcome)
         == PassResult([ListUsers(url + "/api/users"), Terminate("alice", url + "/api/users/alice/server"),
                        DeleteRecord("alice"), Revoke("alice")],
                       Completed)
  {
    var users := [User("alice", true, now - 700, false)];
    assert users[..0] == [];
    assert url + "/api/users/" + "alice" + "/server" == url + "/api/users/alice/server";
    assert ClassificationLog(url, now - 600, false, users, found) == [Terminate("alice", url + "/api/users/alice/server")];
    assert CulledNames(now - 600, users, found) == ["alice"];
    assert ["alice"][..0] == [];
    assert FirstOtherFailure(["alice"], outcome) == 1;
    assert ["alice"][..1] == ["alice"];
  }

  /** Idle 100 s with its container present: looked up, kept, ticket refreshed. */
  lemma ActiveUserKept(url: string, now: int, found: string -> bool, outcome: string -> TerminationResult)
    requires found("bob")
    ensures Pass(url, now, 600, false, Listed([User("bob", true, now - 100, false)]), found, outcome)
         == PassResult([ListUsers(url + "/api/users"), QueryContainer("bob"), Refresh("bob")], Completed)
  {
    var users := [User("bob", true, now - 100, false)];
    assert users[..0] == [];
    assert ClassificationLog(url, now - 600, false, users, found) == [QueryContainer("bob"), Refresh("bob")];
    assert CulledNames(now - 600, users, found) == [];
    assert FirstOtherFailure([], outcome) == 0;
  }
}
