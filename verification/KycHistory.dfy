/** What runs say about starting over and about the recorded history of eligibility states. */
module KycHistory {
  import opened Base
  import opened KycPolicy
  import opened AddressPolicy
  import opened KycDb
  import opened KycRuns
  import opened KycLease
  import opened KycOutcomes

  // ---- When an account may start a session ----

  ghost predicate MayStart(db: Db, account: Id) {
    account in db.rows ==> CanStartSession(db.rows[account].baseline.substatus)
  }

  predicate MovesSession(s: Step) {
    s.ReserveStep? || s.CompleteStep? || s.FailStep? || s.OutcomeStep? || s.RenewStep?
  }

  /** A failed start, a lapsed renewal, or a session that expired, was abandoned or has lapsed. */
  predicate Reopens(s: Step) {
    || s.FailStep? || s.RenewStep?
    || (s.OutcomeStep? && s.providerStatus in {Some(Expired), Some(Abandoned), Some(KycExpired)})
  }

  /** The last transaction that moved the account's session, if any did, left it free to start again. */
  ghost predicate WasReopened(db: Db, steps: seq<Step>, account: Id) {
    if steps == [] then MayStart(db, account)
    else if LastTookEffect(db, steps) && MovesSession(Last(steps)) && Target(After(db, Front(steps)), Last(steps))
        == account
    then Reopens(Last(steps))
    else WasReopened(db, Front(steps), account)
  }

  lemma MayStartTarget(db: Db, s: Step)
    requires Target(db, s) in db.rows ==> RowOk(db.rows[Target(db, s)])
    ensures MayStart(Do(db, s).0, Target(db, s)) <==>
              if Do(db, s).1 && MovesSession(s) then Reopens(s) else MayStart(db, Target(db, s))
  {
    hide Evaluate, EvaluateAddress, BaselineRow, Calendar.AddMonths;
    if s.OutcomeStep? && Do(db, s).1 {
      AppliedSubstatus(db.rows[Target(db, s)], s);
    }
  }

  lemma AppliedSubstatus(row: Row, s: Step)
    requires s.OutcomeStep? && !IsStale(row.baseline.providerUpdatedAt, s.at)
    ensures CanStartSession(BaselineRow(row, s.providerStatus, s.at, OutcomeOf(s)).baseline.substatus) <==> Reopens(s)
  {
    hide Evaluate, IsSupported, Incomplete, AnyWantsReview, Rejected, FullyVerified;
    SubstatusIff(s.providerStatus, s.decision, s.readResidence, s.readTax, s.at, s.readReviewed);
    StateIff(s.providerStatus, s.decision, s.readResidence, s.readTax, s.at, s.readReviewed);
  }

  /** In every run an account is free to start exactly when the last transaction on its session left it so. */
  lemma {:induction false} MayStartIffReopened(db: Db, steps: seq<Step>, account: Id)
    requires Inv(db)
    ensures MayStart(After(db, steps), account) <==> WasReopened(db, steps, account)
  {
    hide Do, Target, MayStart, RowOk;
    if steps != [] {
      var mid, s := After(db, Front(steps)), Last(steps);
      MayStartIffReopened(db, Front(steps), account);
      EveryRunKeepsInv(db, Front(steps));
      MayStartStep(mid, s, account);
    }
  }

  lemma MayStartStep(db: Db, s: Step, account: Id)
    requires Inv(db)
    ensures MayStart(Do(db, s).0, account) <==>
              if Do(db, s).1 && MovesSession(s) && Target(db, s) == account then Reopens(s) else MayStart(db, account)
  {
    hide Do, Target, RowOk, CanStartSession;
    DoRewrites(db, s);
    MayStartTarget(db, s);
  }

  /** What a reservation answers after any run. */
  lemma StartAnswers(
    accounts: set<Id>, steps: seq<Step>, account: Id, id: Id, residence: string, tax: string, at: int)
    ensures var db := After(Empty(accounts), steps);
            var taken := exists other :: other != account && HeldStart(BaselineSession, db, other) == Some(id);
            Reserve(db, account, id, residence, tax, at).1 ==
              if account !in accounts || !WasReopened(Empty(accounts), steps, account) then Done(false)
              else if taken then Aborted
              else Done(true)
  {
    hide After, WasReopened;
    assert Inv(Empty(accounts));
    MayStartIffReopened(Empty(accounts), steps, account);
    AccountsStay(Empty(accounts), steps);
    var db := After(Empty(accounts), steps);
    if other :| other in db.rows && other != account && db.rows[other].baseline.startId == Some(id) {
      assert HeldStart(BaselineSession, db, other) == Some(id);
    }
  }

  lemma {:induction false} AccountsStay(db: Db, steps: seq<Step>)
    ensures After(db, steps).accounts == db.accounts
  {
    hide Do;
    if steps != [] {
      AccountsStay(db, Front(steps));
      DoRewrites(After(db, Front(steps)), Last(steps));
    }
  }

  // ---- The history ----

  ghost function StateIn(db: Db, account: Id): EligibilityState {
    if account in db.rows then db.rows[account].baseline.state else StateNotStarted
  }

  /** The transactions that leave an entry in the history. */
  predicate IsRecorded(s: Step) {
    s.CompleteStep? || s.CompleteAddressStep? || s.OutcomeStep? || s.AddressOutcomeStep? || s.RenewStep?
  }

  function RecordedReason(s: Step): Reason
    requires IsRecorded(s)
  {
    match s
    case CompleteStep(_, _, _, _, _) => Reason.SessionStarted
    case CompleteAddressStep(_, _, _, _, _) => AddressSessionStarted
    case OutcomeStep(_, _, _, _, _, _, _, _) => OutcomeOf(s).reason
    case AddressOutcomeStep(_, _, _, _, _, _) => AddressOutcomeOf(s).reason
    case RenewStep(_, _) => RenewalDue
  }

  /**
   * One transaction adds at most one entry, about the account it wrote, and no state changes without one.
   * The entry states the change truly unless a session start found the account in need of renewal,
   * or a proof-of-address start found it no longer eligible.
   */
  lemma EntryIff(db: Db, s: Step)
    ensures var (next, effective) := Do(db, s);
            var a := Target(db, s);
            if effective && IsRecorded(s)
            then && |next.history| == |db.history| + 1 && next.history[..|db.history|] == db.history
                 && var e := next.history[|db.history|];
                    && e.account == a && e.at == s.at && e.reason == RecordedReason(s)
                    && (e.previous == StateIn(db, a) <==>
                          && (s.CompleteStep? ==> StateIn(db, a).StateNotStarted?)
                          && (s.CompleteAddressStep? ==> StateIn(db, a).Eligible?))
                    && (e.next == StateIn(next, a) <==> (s.CompleteAddressStep? ==> StateIn(next, a).Eligible?))
            else next.history == db.history && forall x :: StateIn(next, x) == StateIn(db, x)
  {
    hide Evaluate, EvaluateAddress;
    DoRewrites(db, s);
  }

  /** What the history says an account's state is: where its last entry ends. */
  function Recorded(history: seq<Entry>, account: Id): EligibilityState {
    if history == [] then StateNotStarted
    else
      var e := history[|history| - 1];
      if e.account == account then e.next else Recorded(history[..|history| - 1], account)
  }

  /** The account's last recorded transaction was a proof-of-address start that found it no longer eligible. */
  ghost predicate Misrecorded(db: Db, steps: seq<Step>, account: Id) {
    if steps == [] then false
    else
      var mid, s := After(db, Front(steps)), Last(steps);
      if Do(mid, s).1 && IsRecorded(s) && Target(mid, s) == account
      then s.CompleteAddressStep? && !StateIn(mid, account).Eligible?
      else Misrecorded(db, Front(steps), account)
  }

  lemma AddressStartKeepsState(db: Db, s: Step)
    requires s.CompleteAddressStep?
    ensures StateIn(Do(db, s).0, s.account) == StateIn(db, s.account) && Target(db, s) == s.account
  {
  }

  lemma OthersKeepState(db: Db, s: Step, account: Id)
    requires account != Target(db, s)
    ensures StateIn(Do(db, s).0, account) == StateIn(db, account)
  {
    hide Do, Target;
    DoRewrites(db, s);
  }

  /** The history ends in the account's state after every run, except exactly in those misrecorded ones. */
  lemma {:induction false} RecordedIff(accounts: set<Id>, steps: seq<Step>, account: Id)
    ensures var db := After(Empty(accounts), steps);
            Recorded(db.history, account) == StateIn(db, account) <==> !Misrecorded(Empty(accounts), steps, account)
  {
    hide Do, Target, StateIn, RecordedReason;
    if steps == [] {
      NoneStarted(accounts, account);
    } else {
      var front := Front(steps);
      var mid, s := After(Empty(accounts), front), Last(steps);
      var next := Do(mid, s).0;
      RecordedIff(accounts, front, account);
      EntryIff(mid, s);
      if Do(mid, s).1 && IsRecorded(s) {
        assert next.history[..|next.history| - 1] == mid.history;
        if Target(mid, s) == account {
          if s.CompleteAddressStep? { AddressStartKeepsState(mid, s); }
        } else {
          OthersKeepState(mid, s, account);
        }
      }
    }
  }

  lemma NoneStarted(accounts: set<Id>, account: Id)
    ensures StateIn(Empty(accounts), account) == StateNotStarted && Empty(accounts).history == []
  {
  }

  // ---- Where a session starts from ----

  predicate StartsFresh(r: Row) {
    CanStartSession(r.baseline.substatus) || r.baseline.substatus.SessionCreating? ==>
      r.baseline.state.StateNotStarted? || r.baseline.state.RequiresRenewal?
  }

  lemma StartsFreshTarget(db: Db, s: Step)
    requires Target(db, s) in db.rows ==> StartsFresh(db.rows[Target(db, s)]) && RowOk(db.rows[Target(db, s)])
    ensures Target(db, s) in Do(db, s).0.rows ==> StartsFresh(Do(db, s).0.rows[Target(db, s)])
  {
    hide Evaluate, EvaluateAddress, BaselineRow, Calendar.AddMonths;
    if s.OutcomeStep? && Do(db, s).1 { AppliedStartsFresh(db.rows[Target(db, s)], s); }
  }

  lemma AppliedStartsFresh(row: Row, s: Step)
    requires s.OutcomeStep? && !IsStale(row.baseline.providerUpdatedAt, s.at)
    ensures StartsFresh(BaselineRow(row, s.providerStatus, s.at, OutcomeOf(s)))
  {
    hide Evaluate, CanStartSession;
    RestartState(s.providerStatus, s.decision, s.readResidence, s.readTax, s.at, s.readReviewed);
  }

  /** In every run a session starts from an account that has not started or needs renewal, never from any other. */
  lemma {:induction false} EverySessionStartsFresh(accounts: set<Id>, steps: seq<Step>, account: Id)
    requires account in After(Empty(accounts), steps).rows
    ensures StartsFresh(After(Empty(accounts), steps).rows[account])
  {
    hide Do, Target, StartsFresh, RowOk;
    if steps != [] {
      var mid, s := After(Empty(accounts), Front(steps)), Last(steps);
      if account in mid.rows { EverySessionStartsFresh(accounts, Front(steps), account); }
      assert Inv(Empty(accounts));
      EveryRunKeepsInv(Empty(accounts), Front(steps));
      DoRewrites(mid, s);
      if account == Target(mid, s) { StartsFreshTarget(mid, s); }
    }
  }

  // ---- The time a row was last written ----

  /** Outcomes move the time only forward; every other transaction sets it to its own. */
  lemma UpdatedAtStep(db: Db, s: Step)
    requires Do(db, s).1
    ensures var a, next := Target(db, s), Do(db, s).0;
            && a in next.rows
            && (s.OutcomeStep? || s.AddressOutcomeStep? ==>
                  && a in db.rows && next.rows[a].updatedAt >= s.at && next.rows[a].updatedAt >= db.rows[a].updatedAt
                  && next.rows[a].updatedAt in {s.at, db.rows[a].updatedAt})
            && (!s.OutcomeStep? && !s.AddressOutcomeStep? && !s.UnmatchedStep? ==> next.rows[a].updatedAt == s.at)
  {
    hide Evaluate, EvaluateAddress;
  }
}
