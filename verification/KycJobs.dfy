/** The scheduled jobs on the KYC table: expiring stuck session starts and moving overdue accounts to renewal. */
module KycJobs {
  import opened Base
  import opened KycPolicy
  import opened AddressPolicy
  import opened KycDb
  import opened KycRuns
  import opened KycLease
  import opened KycRepository
  import opened KycServices

  const CREATING_STUCK_TIMEOUT_MS := 15 * 60 * 1000

  predicate IsSessionStuck(updatedAt: int, now: int, timeout: int) { now - updatedAt >= timeout }

  // ---- Expiring stuck session starts ----

  datatype Stuck = Stuck(account: Id, kind: Kind, id: Id, updatedAt: int)

  /** The timer's query: one entry per row and kind that is being created. */
  ghost predicate ListsCreations(rows: map<Id, Row>, list: seq<Stuck>) {
    && (forall e :: e in list ==>
          e.account in rows && Creating(e.kind, rows[e.account], e.id) && e.updatedAt == rows[e.account].updatedAt)
    && (forall a, kind, id :: a in rows && Creating(kind, rows[a], id) ==>
          Stuck(a, kind, id, rows[a].updatedAt) in list)
  }

  predicate NoRepeats(list: seq<Stuck>) {
    forall i, j :: 0 <= i < j < |list| ==> list[i].account != list[j].account || list[i].kind != list[j].kind
  }

  method ListStuckSessionCreations(repo: Repository) returns (list: seq<Stuck>)
    requires forall a :: a in repo.rows ==> RowOk(repo.rows[a])
    ensures ListsCreations(repo.rows, list) && NoRepeats(list)
  {
    hide RowOk, Creating;
    list := [];
    var keys := repo.rows.Keys;
    while keys != {}
      invariant keys <= repo.rows.Keys
      invariant forall e :: e in list ==> e.account in repo.rows && Creating(e.kind, repo.rows[e.account], e.id)
                                          && e.updatedAt == repo.rows[e.account].updatedAt
      invariant forall a, kind, id :: a in repo.rows && a !in keys && Creating(kind, repo.rows[a], id) ==>
                Stuck(a, kind, id, repo.rows[a].updatedAt) in list
      invariant NoRepeats(list) && forall e :: e in list ==> e.account !in keys
      decreases |keys|
    {
      var a :| a in keys;
      var row := repo.rows[a];
      assert RowOk(row);
      WhatIsCreating(row);
      if row.baseline.substatus.SessionCreating? {
        list := list + [Stuck(a, BaselineSession, row.baseline.startId.value, row.updatedAt)];
      }
      if row.address.status.AddressCreating? {
        list := list + [Stuck(a, AddressSession, row.address.startId.value, row.updatedAt)];
      }
      keys := keys - {a};
    }
  }

  lemma WhatIsCreating(row: Row)
    requires RowOk(row)
    ensures row.baseline.substatus.SessionCreating? ==> row.baseline.startId.Some?
    ensures row.address.status.AddressCreating? ==> row.address.startId.Some?
    ensures forall kind, id :: Creating(kind, row, id) <==>
              if kind == BaselineSession then row.baseline.substatus.SessionCreating?
                  && row.baseline.startId == Some(id)
              else kind == AddressSession && row.address.status.AddressCreating? && row.address.startId == Some(id)
  {
  }

  /** A row after the timer: every overdue start of either kind has failed, and only those. */
  function ExpireRow(row: Row, now: int, timeout: int): Row {
    Failed(row, IsSessionStuck(row.updatedAt, now, timeout), IsSessionStuck(row.updatedAt, now, timeout), now)
  }

  // The row once the starts of the given kinds have failed.
  function Failed(row: Row, baseline: bool, address: bool, now: int): Row {
    var b, a := baseline && row.baseline.substatus.SessionCreating?, address && row.address.status.AddressCreating?;
    row.(baseline := if b then row.baseline.(substatus := SessionCreationFailed) else row.baseline,
         address := if a then row.address.(status := AddressCreationFailed) else row.address,
         updatedAt := if a || b then now else row.updatedAt)
  }

  ghost predicate Handled(list: seq<Stuck>, i: int, account: Id, kind: Kind)
    requires 0 <= i <= |list|
  {
    exists k :: 0 <= k < i && list[k].account == account && list[k].kind == kind
  }

  // The table after the first i entries of the timer's list.
  ghost predicate Progress(start: map<Id, Row>, rows: map<Id, Row>, list: seq<Stuck>, i: int, now: int, timeout: int)
    requires 0 <= i <= |list|
  {
    && rows.Keys == start.Keys
    && forall a :: a in start ==>
         var due := IsSessionStuck(start[a].updatedAt, now, timeout);
         rows[a] == Failed(start[a], due && Handled(list, i, a, BaselineSession), due
             && Handled(list, i, a, AddressSession), now)
  }

  function FailOf(e: Stuck, now: int): Step {
    if e.kind.BaselineSession? then FailStep(e.account, e.id, now) else FailAddressStep(e.account, e.id, now)
  }

  // Failing the i-th entry moves the table from its first i to its first i + 1 entries.
  lemma ProgressStep(start: map<Id, Row>, db: Db, list: seq<Stuck>, i: int, now: int, timeout: int)
    requires 0 <= i < |list| && ListsCreations(start, list) && FailuresFinal(db)
    requires Progress(start, db.rows, list, i, now, timeout)
    ensures var due := IsSessionStuck(list[i].updatedAt, now, timeout);
            Progress(start, if due then Do(db, FailOf(list[i], now)).0.rows else db.rows, list, i + 1, now, timeout)
    ensures Do(db, FailOf(list[i], now)).0.history == db.history
  {
    hide FailuresFinal, Handled;
    var e := list[i];
    assert e in list;
    HandledStep(list, i);
    if Creating(e.kind, db.rows[e.account], e.id) {
      assert CreatingUnder(e.kind, db, e.id);
      NotOnRecord(db, e.kind, e.id);
    }
  }

  lemma NotOnRecord(db: Db, kind: Kind, id: Id)
    requires FailuresFinal(db) && CreatingUnder(kind, db, id)
    ensures FailedKey(kind, id) !in db.claimed
  {
  }

  lemma HandledStep(list: seq<Stuck>, i: int)
    requires 0 <= i < |list|
    ensures forall a, kind :: Handled(list, i + 1, a, kind) <==>
              Handled(list, i, a, kind) || (list[i].account == a && list[i].kind == kind)
  {
    assert Handled(list, i + 1, list[i].account, list[i].kind);
  }

  lemma ProgressDone(start: map<Id, Row>, rows: map<Id, Row>, list: seq<Stuck>, now: int, timeout: int)
    requires ListsCreations(start, list) && Progress(start, rows, list, |list|, now, timeout)
    requires forall a :: a in start ==> RowOk(start[a])
    ensures rows == map a | a in start :: ExpireRow(start[a], now, timeout)
  {
    forall a | a in start ensures rows[a] == ExpireRow(start[a], now, timeout) {
      assert RowOk(start[a]);
      if start[a].baseline.substatus.SessionCreating? {
        AllHandled(start, list, a, BaselineSession, start[a].baseline.startId.value);
      }
      if start[a].address.status.AddressCreating? {
        AllHandled(start, list, a, AddressSession, start[a].address.startId.value);
      }
    }
  }

  lemma AllHandled(start: map<Id, Row>, list: seq<Stuck>, a: Id, kind: Kind, id: Id)
    requires ListsCreations(start, list) && a in start && Creating(kind, start[a], id)
    ensures Handled(list, |list|, a, kind)
  {
    var k :| 0 <= k < |list| && list[k] == Stuck(a, kind, id, start[a].updatedAt);
  }

  /** How many of the listed starts are overdue. */
  function CountStuck(list: seq<Stuck>, now: int, timeout: int): nat {
    if list == [] then 0
    else
      CountStuck(list[..|list| - 1], now, timeout) +
      if IsSessionStuck(list[|list| - 1].updatedAt, now, timeout) then 1 else 0
  }

  /** The audit keys a run claims: one for each overdue start it fails. */
  function StuckKeys(list: seq<Stuck>, now: int, timeout: int): set<EventKey> {
    if list == [] then {}
    else
      var e := list[|list| - 1];
      StuckKeys(list[..|list| - 1], now, timeout) +
          if IsSessionStuck(e.updatedAt, now, timeout) then {FailedKey(e.kind, e.id)} else {}
  }

  // The i-th start is still being created when its turn comes, so failing it claims its key.
  lemma FailClaims(start: map<Id, Row>, db: Db, list: seq<Stuck>, i: int, now: int, timeout: int)
    requires 0 <= i < |list| && ListsCreations(start, list) && NoRepeats(list) && FailuresFinal(db)
    requires Progress(start, db.rows, list, i, now, timeout)
    ensures Do(db, FailOf(list[i], now)).0.claimed == db.claimed + {FailedKey(list[i].kind, list[i].id)}
  {
    hide FailuresFinal;
    var e := list[i];
    assert e in list;
    assert !Handled(list, i, e.account, e.kind);
    assert Creating(e.kind, db.rows[e.account], e.id);
  }

  /**
   * One run with no concurrent writer: every overdue start has failed, every other row is
   * untouched, and the summary counts them.
   */
  method ExpireStuckSessionCreations(repo: Repository, now: int, timeout: int)
    returns (checked: nat, acted: nat, ghost list: seq<Stuck>)
    requires Inv(repo.View()) && FailuresFinal(repo.View())
    modifies repo
    ensures repo.rows == map a | a in old(repo.rows) :: ExpireRow(old(repo.rows)[a], now, timeout)
    ensures repo.accounts == old(repo.accounts) && repo.history == old(repo.history)
    ensures forall a, kind, id :: a in repo.rows && Creating(kind, repo.rows[a], id) ==>
              !IsSessionStuck(repo.rows[a].updatedAt, now, timeout)
    ensures Inv(repo.View()) && FailuresFinal(repo.View())
    ensures ListsCreations(old(repo.rows), list) && NoRepeats(list)
    ensures checked == |list| && acted == CountStuck(list, now, timeout)
    ensures repo.claimed == old(repo.claimed) + StuckKeys(list, now, timeout)
  {
    hide Do, RowOk, FailuresFinal, Progress, ListsCreations, Unique;
    var stuck := ListStuckSessionCreations(repo);
    list := stuck;
    acted := 0;
    NothingHandled(repo.rows, list, now, timeout);
    for i := 0 to |stuck|
      invariant Inv(repo.View()) && FailuresFinal(repo.View())
      invariant repo.accounts == old(repo.accounts) && repo.history == old(repo.history)
      invariant Progress(old(repo.rows), repo.rows, list, i, now, timeout)
      invariant list == stuck && acted == CountStuck(list[..i], now, timeout)
      invariant repo.claimed == old(repo.claimed) + StuckKeys(list[..i], now, timeout)
    {
      var e := stuck[i];
      assert list[..i + 1][..i] == list[..i];
      ProgressStep(old(repo.rows), repo.View(), list, i, now, timeout);
      if IsSessionStuck(e.updatedAt, now, timeout) {
        FailuresStayFinal(repo.View(), FailOf(e, now));
        FailClaims(old(repo.rows), repo.View(), list, i, now, timeout);
        DoRewrites(repo.View(), FailOf(e, now));
        var _ := Perform(repo, FailOf(e, now));
        acted := acted + 1;
      }
    }
    ProgressDone(old(repo.rows), repo.rows, list, now, timeout);
    assert list[..|list|] == list;
    checked := |stuck|;
  }

  lemma NothingHandled(rows: map<Id, Row>, list: seq<Stuck>, now: int, timeout: int)
    ensures Progress(rows, rows, list, 0, now, timeout)
  {
  }

  /**
   * With the timeout in force, a start still being created after a run was touched less than
   * fifteen minutes before it.
   */
  lemma NothingStaysStuck(row: Row, kind: Kind, id: Id, now: int)
    ensures var after := ExpireRow(row, now, CREATING_STUCK_TIMEOUT_MS);
            Creating(kind, after, id) ==> after == row && now - after.updatedAt < 900_000
  {
  }

  /**
   * A start of either kind is failed exactly when its row was last touched fifteen minutes or more before the
   * run; its account may then start again. Every other column stays as it was.
   */
  lemma ExpiredIff(row: Row, now: int)
    ensures var after := ExpireRow(row, now, CREATING_STUCK_TIMEOUT_MS);
            var due := now - row.updatedAt >= 900_000;
            && (row.baseline.substatus.SessionCreating? && due ==>
                  after.baseline.substatus.SessionCreationFailed? && CanStartSession(after.baseline.substatus))
            && (row.address.status.AddressCreating? && due ==>
                  after.address.status.AddressCreationFailed? && CanStartAddress(after.address.status, None, now))
            && (!(row.baseline.substatus.SessionCreating? && due) ==> after.baseline == row.baseline)
            && (!(row.address.status.AddressCreating? && due) ==> after.address == row.address)
            && after.baseline == row.baseline.(substatus := after.baseline.substatus)
            && after.address == row.address.(status := after.address.status)
            && after.residence == row.residence && after.tax == row.tax
            && after.updatedAt == if after.baseline == row.baseline && after.address == row.address then row.updatedAt
                                  else now
  {
  }

  // ---- Renewal ----

  datatype Renewable = Renewable(account: Id, renewalDueAt: int)

  ghost predicate ListsEligible(rows: map<Id, Row>, list: seq<Renewable>) {
    && (forall e :: e in list ==>
          e.account in rows && rows[e.account].baseline.state.Eligible?
              && rows[e.account].baseline.renewalDueAt == Some(e.renewalDueAt))
    && (forall a :: a in rows && rows[a].baseline.state.Eligible? && rows[a].baseline.renewalDueAt.Some? ==>
          Renewable(a, rows[a].baseline.renewalDueAt.value) in list)
  }

  predicate NoAccountTwice(list: seq<Renewable>) {
    forall i, j :: 0 <= i < j < |list| ==> list[i].account != list[j].account
  }

  method ListEligibleAccounts(repo: Repository) returns (list: seq<Renewable>)
    ensures ListsEligible(repo.rows, list) && NoAccountTwice(list)
  {
    list := [];
    var keys := repo.rows.Keys;
    while keys != {}
      invariant keys <= repo.rows.Keys
      invariant forall e :: e in list ==> e.account in repo.rows && repo.rows[e.account].baseline.state.Eligible?
                                          && repo.rows[e.account].baseline.renewalDueAt == Some(e.renewalDueAt)
      invariant forall a :: a in repo.rows && a !in keys
                            && repo.rows[a].baseline.state.Eligible? && repo.rows[a].baseline.renewalDueAt.Some?
                            ==> Renewable(a, repo.rows[a].baseline.renewalDueAt.value) in list
      invariant NoAccountTwice(list) && forall e :: e in list ==> e.account !in keys
      decreases |keys|
    {
      var a :| a in keys;
      var b := repo.rows[a].baseline;
      if b.state.Eligible? && b.renewalDueAt.Some? {
        list := list + [Renewable(a, b.renewalDueAt.value)];
      }
      keys := keys - {a};
    }
  }

  predicate IsOverdue(row: Row, now: int) {
    row.baseline.state.Eligible? && row.baseline.renewalDueAt.Some?
        && IsRenewalOverdue(row.baseline.renewalDueAt.value, now)
  }

  function RenewRow(row: Row, now: int): Row {
    if !IsOverdue(row, now) then row
    else row.(baseline := row.baseline.(state := RequiresRenewal, substatus := ReverificationRequired),
        updatedAt := now)
  }

  ghost predicate Visited(list: seq<Renewable>, i: int, account: Id)
    requires 0 <= i <= |list|
  {
    exists k :: 0 <= k < i && list[k].account == account
  }

  ghost predicate Renewed(start: map<Id, Row>, rows: map<Id, Row>, list: seq<Renewable>, i: int, now: int)
    requires 0 <= i <= |list|
  {
    && rows.Keys == start.Keys
    && forall a :: a in start ==> rows[a] == if Visited(list, i, a) then RenewRow(start[a], now) else start[a]
  }

  lemma RenewedStep(start: map<Id, Row>, db: Db, list: seq<Renewable>, i: int, now: int)
    requires 0 <= i < |list| && ListsEligible(start, list) && Renewed(start, db.rows, list, i, now)
    ensures var overdue := IsRenewalOverdue(list[i].renewalDueAt, now);
            Renewed(start, if overdue then Renew(db, list[i].account, now).0.rows else db.rows, list, i + 1, now)
  {
    var e := list[i];
    assert e in list;
    assert forall a :: Visited(list, i + 1, a) <==> Visited(list, i, a) || a == e.account by {
      assert Visited(list, i + 1, e.account);
    }
  }

  lemma RenewedDone(start: map<Id, Row>, rows: map<Id, Row>, list: seq<Renewable>, now: int)
    requires ListsEligible(start, list) && Renewed(start, rows, list, |list|, now)
    ensures rows == map a | a in start :: RenewRow(start[a], now)
  {
    forall a | a in start ensures rows[a] == RenewRow(start[a], now) {
      if IsOverdue(start[a], now) {
        var k :| 0 <= k < |list| && list[k] == Renewable(a, start[a].baseline.renewalDueAt.value);
        assert Visited(list, |list|, a);
      }
    }
  }

  function CountOverdue(list: seq<Renewable>, now: int): nat {
    if list == [] then 0
    else CountOverdue(list[..|list| - 1], now) + if IsRenewalOverdue(list[|list| - 1].renewalDueAt, now) then 1 else 0
  }

  /**
   * The reminders a run sends: to the listed accounts that are not overdue, have a contact and are
   * within the lead time.
   */
  function Reminded(list: seq<Renewable>, now: int, leadDays: int, contacts: map<Id, string>): seq<Renewable> {
    if list == [] then []
    else
      var e := list[|list| - 1];
      Reminded(list[..|list| - 1], now, leadDays, contacts) +
      if !IsRenewalOverdue(e.renewalDueAt, now) && e.account in contacts
          && IsRenewalReminderDue(e.renewalDueAt, now, leadDays) then [e] else []
  }

  /** A reminder goes to exactly the listed accounts with a contact, not yet due, whose reminder day is today. */
  lemma {:induction false} RemindedIff(
    list: seq<Renewable>, now: int, leadDays: int, contacts: map<Id, string>, e: Renewable)
    ensures e in Reminded(list, now, leadDays, contacts) <==>
              && e in list && e.account in contacts && now <= e.renewalDueAt
              && IsRenewalReminderDue(e.renewalDueAt, now, leadDays)
  {
    hide IsRenewalReminderDue;
    if list != [] {
      var front, last := list[..|list| - 1], list[|list| - 1];
      assert list == front + [last];
      RemindedIff(front, now, leadDays, contacts, e);
    }
  }

  /** The run moves exactly the eligible accounts whose renewal date has passed. */
  lemma MovedIff(row: Row, now: int)
    ensures var after := RenewRow(row, now);
            var lapsed := row.baseline.state.Eligible? && row.baseline.renewalDueAt.Some?
                && row.baseline.renewalDueAt.value < now;
            && (!lapsed ==> after == row)
            && (lapsed ==>
                  && after.baseline.state.RequiresRenewal? && CanStartSession(after.baseline.substatus)
                  && after == row.(baseline := row.baseline.(state := RequiresRenewal,
                                                             substatus := after.baseline.substatus), updatedAt := now))
  {
  }

  /** The history entries of a run: one for each overdue account, in the order of the list. */
  function Moves(list: seq<Renewable>, now: int): seq<Entry> {
    if list == [] then []
    else
      var e := list[|list| - 1];
      Moves(list[..|list| - 1], now) +
      if IsRenewalOverdue(e.renewalDueAt, now) then [Entry(e.account, Eligible, RequiresRenewal, RenewalDue, now)]
          else []
  }

  // An account not visited yet is still eligible, so its transition takes effect.
  lemma NextIsMoved(start: map<Id, Row>, db: Db, list: seq<Renewable>, i: int, now: int)
    requires 0 <= i < |list| && ListsEligible(start, list) && NoAccountTwice(list)
              && Renewed(start, db.rows, list, i, now)
    ensures var (next, moved) := Renew(db, list[i].account, now);
            && moved && next.accounts == db.accounts && next.claimed == db.claimed
            && next.history == db.history + [Entry(list[i].account, Eligible, RequiresRenewal, RenewalDue, now)]
  {
    assert list[i] in list;
    assert !Visited(list, i, list[i].account);
  }

  /** One renewal run with no concurrent writer: exactly the overdue accounts are moved, the others at most reminded. */
  method RunKycRenewalTimer(repo: Repository, now: int, leadDays: int, contacts: map<Id, string>)
    returns (checked: nat, acted: nat, sent: seq<Renewable>, ghost list: seq<Renewable>)
    requires Inv(repo.View())
    modifies repo
    ensures Inv(repo.View())
    ensures repo.rows == map a | a in old(repo.rows) :: RenewRow(old(repo.rows)[a], now)
    ensures ListsEligible(old(repo.rows), list) && NoAccountTwice(list)
    ensures sent == Reminded(list, now, leadDays, contacts)
    ensures checked == |list| && acted == CountOverdue(list, now) + |sent|
    ensures repo.accounts == old(repo.accounts) && repo.claimed == old(repo.claimed)
    ensures repo.history == old(repo.history) + Moves(list, now)
  {
    hide Inv, IsRenewalReminderDue, Renewed, Do, Renew;
    var accounts := ListEligibleAccounts(repo);
    list := accounts;
    acted, sent := 0, [];
    NothingRenewed(repo.rows, list, now);
    for i := 0 to |accounts|
      invariant Inv(repo.View()) && list == accounts
      invariant repo.accounts == old(repo.accounts) && repo.claimed == old(repo.claimed)
      invariant repo.history == old(repo.history) + Moves(list[..i], now)
      invariant Renewed(old(repo.rows), repo.rows, list, i, now)
      invariant sent == Reminded(list[..i], now, leadDays, contacts) && acted == CountOverdue(list[..i], now) + |sent|
    {
      var e := accounts[i];
      assert list[..i + 1][..i] == list[..i];
      RenewedStep(old(repo.rows), repo.View(), list, i, now);
      NextIsMoved(old(repo.rows), repo.View(), list, i, now);
      if IsRenewalOverdue(e.renewalDueAt, now) {
        RenewIsAStep(repo.View(), e.account, now);
        var moved := repo.TransitionToRequiresRenewal(e.account, now);
        if moved { acted := acted + 1; }
      } else if e.account in contacts && IsRenewalReminderDue(e.renewalDueAt, now, leadDays) {
        sent := sent + [e];
        acted := acted + 1;
      }
    }
    assert list[..|list|] == list;
    RenewedDone(old(repo.rows), repo.rows, list, now);
    checked := |accounts|;
  }

  lemma NothingRenewed(rows: map<Id, Row>, list: seq<Renewable>, now: int)
    ensures Renewed(rows, rows, list, 0, now)
  {
  }

  lemma RenewIsAStep(db: Db, account: Id, now: int)
    requires Inv(db)
    ensures Inv(Renew(db, account, now).0)
  {
    hide Inv, Renew;
    InvKept(db, RenewStep(account, now));
  }

  /**
   * After a renewal run no eligible account is overdue, and every account that was moved may start
   * a new session at once.
   */
  lemma RenewalLeavesNoneOverdue(db: Db, account: Id, now: int, id: Id, residence: string, tax: string, at: int)
    requires Inv(db) && account in db.rows && account in db.accounts
    requires forall a :: a in db.rows ==> db.rows[a].baseline.startId != Some(id)
    ensures var after := db.(rows := map a | a in db.rows :: RenewRow(db.rows[a], now));
            && (after.rows[account].baseline.state.Eligible? ==>
                  after.rows[account].baseline.renewalDueAt.Some?
                      && after.rows[account].baseline.renewalDueAt.value >= now)
            && (after.rows[account] != db.rows[account] ==>
                  Reserve(after, account, id, residence, tax, at).1 == Done(true))
  {
    hide Calendar.AddMonths;
    assert RowOk(db.rows[account]);
  }
}
