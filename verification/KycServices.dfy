/** The services that drive the repository. Other transactions may run wherever a service awaits. */
module KycServices {
  import opened Base
  import opened KycPolicy
  import opened AddressPolicy
  import opened KycDb
  import opened KycRuns
  import opened KycLease
  import opened KycRepository

  // ---- Other writers ----

  method Perform(repo: Repository, s: Step) returns (effective: bool)
    requires Inv(repo.View())
    modifies repo
    ensures (repo.View(), effective) == Do(old(repo.View()), s) && Inv(repo.View())
  {
    hide Evaluate, EvaluateAddress, BaselineRow, AddressRow, RowOk, Distinct;
    InvKept(repo.View(), s);
    match s
    case ReserveStep(a, id, residence, tax, at) => var r :=
        repo.ReserveSessionStart(a, id, residence, tax, at); effective := r == Done(true);
    case CompleteStep(a, id, reference, status, at) => var r :=
        repo.CompleteSessionStart(a, id, reference, status, at); effective := r == Done(true);
    case FailStep(a, id, at) => var r := repo.FailSessionStart(a, id, at); effective := r == Done(true);
    case ReserveAddressStep(a, id, at) => var r := repo.ReserveAddressSessionStart(a, id, at); effective := r
        == Done(true);
    case CompleteAddressStep(a, id, reference, status, at) =>
      var r := repo.CompleteAddressSessionStart(a, id, reference, status, at); effective := r == Done(true);
    case FailAddressStep(a, id, at) => var r := repo.FailAddressSessionStart(a, id, at); effective := r == Done(true);
    case OutcomeStep(key, reference, status, _, at, _, _, _) =>
      var r := repo.ApplyProviderOutcome(key, reference, status, at, OutcomeOf(s)); effective := r.WasApplied?;
    case AddressOutcomeStep(key, reference, status, _, at, _) =>
      var r := repo.ApplyAddressOutcome(key, reference, status, at, AddressOutcomeOf(s)); effective := r.WasApplied?;
    case UnmatchedStep(key) => repo.RecordUnmatched(key); effective := false;
    case RenewStep(a, at) => effective := repo.TransitionToRequiresRenewal(a, at);
  }

  method PerformAll(repo: Repository, steps: seq<Step>)
    requires Inv(repo.View())
    modifies repo
    ensures repo.View() == After(old(repo.View()), steps) && Inv(repo.View())
  {
    hide Inv, Do;
    for i := 0 to |steps|
      invariant Inv(repo.View())
      invariant repo.View() == After(old(repo.View()), steps[..i])
    {
      assert steps[..i + 1][..i] == steps[..i];
      var _ := Perform(repo, steps[i]);
    }
    assert steps[..|steps|] == steps;
  }

  // ---- A failed start releases its id for good ----

  function FailedKey(kind: Kind, id: Id): EventKey {
    if kind.BaselineSession? then StartFailedKey(id) else AddressStartFailedKey(id)
  }

  /** No row is being created under an id whose failure is already on record. */
  ghost predicate FailuresFinal(db: Db) {
    forall kind, id :: FailedKey(kind, id) in db.claimed ==> !CreatingUnder(kind, db, id)
  }

  /** Start ids are generated fresh: none is reserved again after it failed. */
  ghost predicate UsesFreshIds(db: Db, s: Step) {
    forall kind, id :: IsReserve(kind, s, id) ==> FailedKey(kind, id) !in db.claimed
  }

  predicate FreshSource(s: Step) {
    (s.OutcomeStep? || s.AddressOutcomeStep? || s.UnmatchedStep?) ==> s.key.WebhookKey? || s.key.ReconciliationKey?
  }

  lemma FailedKeyStep(kind: Kind, db: Db, s: Step, id: Id)
    requires FreshSource(s) && FailedKey(kind, id) in Do(db, s).0.claimed
    ensures FailedKey(kind, id) in db.claimed || (IsEnd(kind, s, id) && Do(db, s).1)
  {
    hide Evaluate, EvaluateAddress, BaselineRow, AddressRow;
  }

  lemma FailuresStayFinal(db: Db, s: Step)
    requires Inv(db) && FailuresFinal(db) && FreshSource(s) && UsesFreshIds(db, s)
    ensures FailuresFinal(Do(db, s).0)
  {
    hide Do, CreatingUnder, Inv, FreshSource;
    UniqueOfInv(db);
    forall kind, id | FailedKey(kind, id) in Do(db, s).0.claimed ensures !CreatingUnder(kind, Do(db, s).0, id) {
      FailedKeyStep(kind, db, s, id);
      LeaseStep(kind, db, s, id);
    }
  }

  /** Every step comes from the code's own sources, and no start id is generated twice. */
  ghost predicate IdsAreFresh(steps: seq<Step>) {
    (forall s :: s in steps ==> FreshSource(s)) && forall kind, id :: Requests(kind, steps, id) <= 1
  }

  // A failure on record was made by an effective end of the run.
  lemma {:induction false} FailureHasEnd(kind: Kind, db: Db, steps: seq<Step>, id: Id)
    requires FailedKey(kind, id) !in db.claimed && FailedKey(kind, id) in After(db, steps).claimed
    requires forall s :: s in steps ==> FreshSource(s)
    ensures Ends(kind, db, steps, id) >= 1
  {
    hide Do, FreshSource;
    if steps != [] {
      assert Last(steps) in steps && forall s :: s in Front(steps) ==> s in steps;
      if FailedKey(kind, id) in After(db, Front(steps)).claimed {
        FailureHasEnd(kind, db, Front(steps), id);
      } else {
        FailedKeyStep(kind, After(db, Front(steps)), Last(steps), id);
      }
    }
  }

  lemma EmptyIsInv(accounts: set<Id>)
    ensures Inv(Empty(accounts))
  {
  }

  // An id that was not requested before has no failure on record.
  lemma NotRequestedNotFailed(accounts: set<Id>, kind: Kind, steps: seq<Step>, id: Id)
    requires (forall s :: s in steps ==> FreshSource(s)) && Requests(kind, steps, id) == 0
    ensures FailedKey(kind, id) !in After(Empty(accounts), steps).claimed
  {
    hide After, Ends, Starts, Requests, FreshSource, Inv;
    EmptyIsInv(accounts);
    LeasesConserved(kind, Empty(accounts), steps, id);
    StartsAreRequested(kind, Empty(accounts), steps, id);
    if FailedKey(kind, id) in After(Empty(accounts), steps).claimed { FailureHasEnd(kind, Empty(accounts), steps, id); }
  }

  /** In every run from the empty table no row is being created under an id whose failure is on record. */
  lemma {:induction false} FailuresAlwaysFinal(accounts: set<Id>, steps: seq<Step>)
    requires IdsAreFresh(steps)
    ensures FailuresFinal(After(Empty(accounts), steps))
  {
    hide Do, FreshSource, FailuresFinal, Inv;
    if steps == [] {
      NothingFailed(accounts);
    } else {
      var front, last := Front(steps), Last(steps);
      assert last in steps && forall s :: s in front ==> s in steps;
      forall kind, id ensures Requests(kind, front, id) <= 1
          && (IsReserve(kind, last, id) ==> Requests(kind, front, id) == 0) {
        assert Requests(kind, steps, id) <= 1;
      }
      FailuresAlwaysFinal(accounts, front);
      EmptyIsInv(accounts);
      EveryRunKeepsInv(Empty(accounts), front);
      forall kind, id | IsReserve(kind, last, id)
          ensures FailedKey(kind, id) !in After(Empty(accounts), front).claimed {
        NotRequestedNotFailed(accounts, kind, front, id);
      }
      FailuresStayFinal(After(Empty(accounts), front), last);
    }
  }

  lemma NothingFailed(accounts: set<Id>)
    ensures FailuresFinal(After(Empty(accounts), []))
  {
  }

  // ---- Starting a session ----

  /** The start id belongs to this account's row, if any, and its failure is not on record while it is open. */
  ghost predicate Leased(kind: Kind, db: Db, account: Id, id: Id) {
    forall a :: a in db.rows && Creating(kind, db.rows[a], id) ==> a == account && FailedKey(kind, id) !in db.claimed
  }

  lemma LeasedStep(kind: Kind, db: Db, s: Step, account: Id, id: Id)
    requires Inv(db) && Leased(kind, db, account, id) && FreshSource(s) && !IsReserve(kind, s, id)
    ensures Leased(kind, Do(db, s).0, account, id)
  {
    hide Do, Target, FreshSource, Creating, RowOk;
    var next := Do(db, s).0;
    DoRewrites(db, s);
    LeaseStepTarget(kind, db, s, id);
    LeaseStep(kind, db, s, id);
    if FailedKey(kind, id) in next.claimed { FailedKeyStep(kind, db, s, id); }
  }

  lemma {:induction false} LeasedRun(kind: Kind, db: Db, steps: seq<Step>, account: Id, id: Id)
    requires Inv(db) && Leased(kind, db, account, id) && Others(kind, steps, id)
    ensures Leased(kind, After(db, steps), account, id)
  {
    hide Do, Inv, Leased, FreshSource;
    if steps != [] {
      assert forall s :: s in Front(steps) ==> s in steps;
      LeasedRun(kind, db, Front(steps), account, id);
      EveryRunKeepsInv(db, Front(steps));
      assert Last(steps) in steps;
      LeasedStep(kind, After(db, Front(steps)), Last(steps), account, id);
    }
  }

  /** Transactions of other requests, jobs and webhooks: any at all, except that none reuses this start id. */
  predicate Others(kind: Kind, steps: seq<Step>, id: Id) {
    forall s :: s in steps ==> FreshSource(s) && !IsReserve(kind, s, id)
  }

  datatype ProviderReply =
    | ProviderThrew
    | Created(sessionId: Id, vendorData: Option<Id>, workflowId: Id, status: Option<DiditStatus>)

  datatype StartResult =
    | Opened(reference: Id)      // the session is live
    | Unavailable                // 409: this account cannot start one now
    | ProviderFailed             // the provider threw
    | InvalidReply               // 502: the reply does not match the request
    | NotPersisted               // 500: the row had moved on before the completion
    | Threw                      // a violated unique key aborted the reservation or the completion

  /** The provider handed out a session that is already on record, here or on another account's row. */
  ghost predicate ReferenceTaken(kind: Kind, db: Db, account: Id, reference: Id) {
    match kind
    case BaselineSession => StartedKey(reference) in db.claimed || exists a :: a != account && Holds(db, reference, a)
    case AddressSession =>
      AddressStartedKey(reference) in db.claimed || exists a :: a != account && HoldsAddress(db, reference, a)
  }

  /** The row is still being created under the id when the provider's session id turns out to be taken. */
  ghost predicate Collides(kind: Kind, db: Db, account: Id, id: Id, reference: Id) {
    account in db.rows && Creating(kind, db.rows[account], id) && ReferenceTaken(kind, db, account, reference)
  }

  /** The provider created the session that was asked for. */
  predicate Confirms(reply: ProviderReply, account: Id, workflowId: Id) {
    reply.Created? && reply.vendorData == Some(account) && reply.workflowId == workflowId
        && reply.status == Some(NotStarted)
  }

  /** What a start reports, from the reservation's answer, the provider's reply and the table at the completion. */
  ghost predicate IsResultOf(
    r: StartResult, kind: Kind, answer: Answer, reply: ProviderReply, workflowId: Id, mid: Db, account: Id, id: Id)
  {
    var confirmed := answer == Done(true) && Confirms(reply, account, workflowId);
    var creating := IsStillCreating(kind, mid, account, id);
    && (r.Unavailable? <==> answer == Done(false))
    && (r.ProviderFailed? <==> answer == Done(true) && reply.ProviderThrew?)
    && (r.InvalidReply? <==> answer == Done(true) && reply.Created? && !confirmed)
    && (r.NotPersisted? <==> confirmed && !creating)
    && (r.Opened? <==> confirmed && creating && !ReferenceTaken(kind, mid, account, reply.sessionId))
    && (r.Threw? <==>
          answer.Aborted? || (confirmed && creating && ReferenceTaken(kind, mid, account, reply.sessionId)))
  }

  ghost predicate OpenUnder(db: Db, account: Id, id: Id, reference: Id) {
    && account in db.rows && db.rows[account].baseline.reference == Some(reference)
    && db.rows[account].baseline.substatus.SessionOpen? && db.rows[account].baseline.startId == Some(id)
  }

  ghost predicate OpenAddressUnder(db: Db, account: Id, id: Id, reference: Id) {
    && account in db.rows && db.rows[account].address.reference == Some(reference)
    && db.rows[account].address.status.AddressInProgress? && db.rows[account].address.startId == Some(id)
  }

  // While the row is still being created under the id, it carries the countries the id was reserved with.
  lemma StillDeclared(db: Db, during: seq<Step>, account: Id, id: Id)
    requires account in db.rows && Others(BaselineSession, during, id)
    ensures var mid := After(db, during);
            IsStillCreating(BaselineSession, mid, account, id) ==> SameCountries(db, mid, account)
  {
    hide After;
    CountriesStayWithStart(db, during, account, id);
  }

  /**
   * The row is left being created under this id exactly when the provider confirms a session whose
   * reference is by then taken; every other exit releases the id.
   */
  method StartKycSession(
    repo: Repository, account: Id, id: Id, residence: string, tax: string, workflowId: Id,
    reply: ProviderReply, during: seq<Step>, meanwhile: seq<Step>, startedAt: int, endedAt: int)
    returns (r: StartResult)
    requires Inv(repo.View()) && !CreatingUnder(BaselineSession, repo.View(), id) && StartFailedKey(id) !in repo.claimed
    requires Others(BaselineSession, during, id) && Others(BaselineSession, meanwhile, id)
    modifies repo
    ensures Inv(repo.View())
    ensures var (reserved, answer) := Reserve(old(repo.View()), account, id, residence, tax, startedAt);
            CreatingUnder(BaselineSession, repo.View(), id) <==>
              && answer == Done(true) && Confirms(reply, account, workflowId)
              && Collides(BaselineSession, After(reserved, during), account, id, reply.sessionId)
    ensures CreatingUnder(BaselineSession, repo.View(), id) ==> r.Threw?
    ensures var (reserved, answer) := Reserve(old(repo.View()), account, id, residence, tax, startedAt);
            IsResultOf(r, BaselineSession, answer, reply, workflowId, After(reserved, during), account, id)
    ensures r.Opened? ==> reply.Created? && r.reference == reply.sessionId && reply.vendorData == Some(account)
                          && reply.workflowId == workflowId && reply.status == Some(NotStarted)
                          && OpenUnder(repo.View(), account, id, r.reference)
                          && Declared(repo.View(), account, Some(residence), Some(tax))
  {
    hide Inv, Do, Others, ReferenceTaken, Reserve, Complete, Fail, Leased, CreatingUnder, OpenUnder, Creating;
    ReserveLeases(repo.View(), account, id, residence, tax, startedAt);
    var reserved := repo.ReserveSessionStart(account, id, residence, tax, startedAt);
    if reserved.Aborted? { return Threw; }
    if !reserved.matched { return Unavailable; }

    LeasedRun(BaselineSession, repo.View(), during, account, id);
    StillDeclared(repo.View(), during, account, id);
    PerformAll(repo, during);
    if !Confirms(reply, account, workflowId) {
      FailReleases(BaselineSession, repo.View(), account, id, endedAt);
      var _ := repo.FailSessionStart(account, id, endedAt);
      return if reply.ProviderThrew? then ProviderFailed else InvalidReply;
    }

    CompleteReleases(repo.View(), account, id, reply.sessionId, endedAt);
    var completed := repo.CompleteSessionStart(account, id, reply.sessionId, NotStarted, endedAt);
    if completed.Aborted? { return Threw; }
    if !completed.matched {
      LeasedRun(BaselineSession, repo.View(), meanwhile, account, id);
      PerformAll(repo, meanwhile);
      FailReleases(BaselineSession, repo.View(), account, id, endedAt);
      var _ := repo.FailSessionStart(account, id, endedAt);
      return NotPersisted;
    }
    return Opened(reply.sessionId);
  }

  method StartAddressSession(
    repo: Repository, account: Id, id: Id, workflowId: Id,
    reply: ProviderReply, during: seq<Step>, startedAt: int, endedAt: int)
    returns (r: StartResult)
    requires Inv(repo.View()) && !CreatingUnder(AddressSession, repo.View(), id)
              && AddressStartFailedKey(id) !in repo.claimed
    requires Others(AddressSession, during, id)
    modifies repo
    ensures Inv(repo.View())
    ensures var (reserved, answer) := ReserveAddress(old(repo.View()), account, id, startedAt);
            CreatingUnder(AddressSession, repo.View(), id) <==>
              && answer == Done(true) && Confirms(reply, account, workflowId)
              && Collides(AddressSession, After(reserved, during), account, id, reply.sessionId)
    ensures CreatingUnder(AddressSession, repo.View(), id) ==> r.Threw?
    ensures var (reserved, answer) := ReserveAddress(old(repo.View()), account, id, startedAt);
            IsResultOf(r, AddressSession, answer, reply, workflowId, After(reserved, during), account, id)
    ensures r.Opened? ==> reply.Created? && r.reference == reply.sessionId && reply.vendorData == Some(account)
                          && reply.workflowId == workflowId && reply.status == Some(NotStarted)
                          && OpenAddressUnder(repo.View(), account, id, r.reference)
  {
    hide Inv, Do, Others, ReferenceTaken, ReserveAddress, CompleteAddress, FailAddress, Leased, CreatingUnder,
         OpenAddressUnder, Creating;
    ReserveAddressLeases(repo.View(), account, id, startedAt);
    var reserved := repo.ReserveAddressSessionStart(account, id, startedAt);
    if reserved.Aborted? { return Threw; }
    if !reserved.matched { return Unavailable; }

    LeasedRun(AddressSession, repo.View(), during, account, id);
    PerformAll(repo, during);
    if !Confirms(reply, account, workflowId) {
      FailReleases(AddressSession, repo.View(), account, id, endedAt);
      var _ := repo.FailAddressSessionStart(account, id, endedAt);
      return if reply.ProviderThrew? then ProviderFailed else InvalidReply;
    }

    CompleteAddressReleases(repo.View(), account, id, reply.sessionId, endedAt);
    var completed := repo.CompleteAddressSessionStart(account, id, reply.sessionId, NotStarted, endedAt);
    if completed.Aborted? { return Threw; }
    return if completed.matched then Opened(reply.sessionId) else NotPersisted;
  }

  // A fresh id is leased to the account that reserves it.
  lemma ReserveLeases(db: Db, account: Id, id: Id, residence: string, tax: string, at: int)
    requires Inv(db) && !CreatingUnder(BaselineSession, db, id) && StartFailedKey(id) !in db.claimed
    ensures var (next, r) := Reserve(db, account, id, residence, tax, at);
            && Inv(next) && Leased(BaselineSession, next, account, id)
            && (if r == Done(true) then Declared(next, account, Some(residence), Some(tax))
                else !CreatingUnder(BaselineSession, next, id))
  {
    hide Inv;
    InvKept(db, ReserveStep(account, id, residence, tax, at));
  }

  lemma ReserveAddressLeases(db: Db, account: Id, id: Id, at: int)
    requires Inv(db) && !CreatingUnder(AddressSession, db, id) && AddressStartFailedKey(id) !in db.claimed
    ensures var (next, r) := ReserveAddress(db, account, id, at);
            && Inv(next) && Leased(AddressSession, next, account, id)
            && (r != Done(true) ==> !CreatingUnder(AddressSession, next, id))
  {
    hide Inv;
    InvKept(db, ReserveAddressStep(account, id, at));
  }

  // Failing a leased start never aborts: afterwards no row is created under its id.
  lemma FailReleases(kind: Kind, db: Db, account: Id, id: Id, at: int)
    requires Inv(db) && Leased(kind, db, account, id)
    ensures var next := if kind.BaselineSession? then Fail(db, account, id, at).0
                        else FailAddress(db, account, id, at).0;
            Inv(next) && !CreatingUnder(kind, next, id)
  {
    hide Inv;
    InvKept(db, FailStep(account, id, at));
    InvKept(db, FailAddressStep(account, id, at));
  }

  ghost predicate IsStillCreating(kind: Kind, db: Db, account: Id, id: Id) {
    account in db.rows && Creating(kind, db.rows[account], id)
  }

  /**
   * Completing a leased start aborts exactly when the reference is taken while the row is being
   * created, and otherwise releases it.
   */
  lemma CompleteReleases(db: Db, account: Id, id: Id, reference: Id, at: int)
    requires Inv(db) && Leased(BaselineSession, db, account, id)
    ensures var (next, r) := Complete(db, account, id, reference, NotStarted, at);
            && Inv(next) && (r.Aborted? <==> Collides(BaselineSession, db, account, id, reference))
            && (r == Done(false) <==> !IsStillCreating(BaselineSession, db, account, id))
            && (r != Done(true) ==> next == db)
            && (r.Aborted? <==> CreatingUnder(BaselineSession, next, id))
            && (r == Done(true) ==> SameCountries(db, next, account) && OpenUnder(next, account, id, reference))
  {
    hide Inv;
    InvKept(db, CompleteStep(account, id, reference, NotStarted, at));
    if Complete(db, account, id, reference, NotStarted, at).1.Aborted? && StartedKey(reference) !in db.claimed {
      var x :| x in db.rows && x != account && db.rows[x].baseline.reference == Some(reference);
      assert Holds(db, reference, x);
    }
  }

  lemma CompleteAddressReleases(db: Db, account: Id, id: Id, reference: Id, at: int)
    requires Inv(db) && Leased(AddressSession, db, account, id)
    ensures var (next, r) := CompleteAddress(db, account, id, reference, NotStarted, at);
            && Inv(next) && (r.Aborted? <==> Collides(AddressSession, db, account, id, reference))
            && (r == Done(false) <==> !IsStillCreating(AddressSession, db, account, id))
            && (r != Done(true) ==> next == db)
            && (r.Aborted? <==> CreatingUnder(AddressSession, next, id))
            && (r == Done(true) ==> OpenAddressUnder(next, account, id, reference))
  {
    hide Inv;
    InvKept(db, CompleteAddressStep(account, id, reference, NotStarted, at));
    if CompleteAddress(db, account, id, reference, NotStarted, at).1.Aborted?
        && AddressStartedKey(reference) !in db.claimed {
      var x :| x in db.rows && x != account && db.rows[x].address.reference == Some(reference);
      assert HoldsAddress(db, reference, x);
    }
  }
}
