/**
 * The KYC eligibility table and the transactions that write it. Each transaction is
 * one atomic step: first as a function on the table's value, then as a method of the
 * repository that updates the stored rows in place and is proved to do the same.
 */
module KycDb {
  import opened Base
  import opened KycPolicy
  import opened AddressPolicy

  type Id = string

  /** The columns the baseline verification writes. */
  datatype Baseline = Baseline(
    reference: Option<Id>,
    providerStatus: Option<DiditStatus>,
    providerUpdatedAt: Option<int>,
    state: EligibilityState,
    substatus: Substatus,
    startId: Option<Id>,
    lastVerifiedAt: Option<int>,
    renewalDueAt: Option<int>,
    everReviewed: bool)

  /** The columns the owner proof of address writes. */
  datatype Address = Address(
    reference: Option<Id>,
    providerStatus: Option<DiditStatus>,
    providerUpdatedAt: Option<int>,
    status: AddressStatus,
    startId: Option<Id>,
    currentUntil: Option<int>)

  datatype Row = Row(
    residence: Option<string>, tax: Option<string>, baseline: Baseline, address: Address, updatedAt: int)

  /** The unique keys of the audit log that this table's writers claim. */
  datatype EventKey =
    | WebhookKey(id: Id) | ReconciliationKey(id: Id)
    | StartedKey(id: Id) | StartFailedKey(id: Id)
    | AddressStartedKey(id: Id) | AddressStartFailedKey(id: Id)

  datatype Entry = Entry(account: Id, previous: EligibilityState, next: EligibilityState, reason: Reason, at: int)

  datatype Db = Db(accounts: set<Id>, rows: map<Id, Row>, claimed: set<EventKey>, history: seq<Entry>)

  /** What a guarded transaction answers; a violated unique key aborts it and leaves the table as it was. */
  datatype Answer = Done(matched: bool) | Aborted

  datatype Applied = WasApplied | Duplicate | Stale | Unmatched

  // ---- Guards ----

  predicate CanStartSession(s: Substatus) {
    s.KycNotStarted? || s.SessionCreationFailed? || s.RestartRequired? || s.ReverificationRequired?
  }

  predicate CanStartAddress(status: AddressStatus, currentUntil: Option<int>, startedAt: int) {
    && !(status.Current? && currentUntil.Some? && currentUntil.value > startedAt)
    && !status.AddressCreating? && !status.AddressInProgress? && !status.AddressManualReview?
  }

  predicate IsCreating(r: Row, id: Id) {
    r.baseline.substatus.SessionCreating? && r.baseline.startId == Some(id)
  }

  predicate IsAddressCreating(r: Row, id: Id) {
    r.address.status.AddressCreating? && r.address.startId == Some(id)
  }

  // ---- Session starts, as functions ----

  const NO_BASELINE := Baseline(None, None, None, StateNotStarted, KycNotStarted, None, None, None, false)

  const NO_ADDRESS := Address(None, None, None, AddressNotStarted, None, None)

  ghost function Reserve(db: Db, account: Id, id: Id, residence: string, tax: string, at: int): (Db, Answer) {
    if account !in db.accounts then (db, Done(false))
    else if account in db.rows && !CanStartSession(db.rows[account].baseline.substatus) then (db, Done(false))
    else if exists other :: other in db.rows && other != account && db.rows[other].baseline.startId == Some(id) then
      (db, Aborted)
    else
      var was := if account in db.rows then db.rows[account] else Row(None, None, NO_BASELINE, NO_ADDRESS, at);
      var row := Row(Some(residence), Some(tax), was.baseline.(substatus := SessionCreating, startId := Some(id)),
          was.address, at);
      (db.(rows := db.rows[account := row]), Done(true))
  }

  ghost function Complete(db: Db, account: Id, id: Id, reference: Id, status: DiditStatus, at: int): (Db, Answer) {
    if account !in db.rows || !IsCreating(db.rows[account], id) then (db, Done(false))
    else if StartedKey(reference) in db.claimed
         || exists other :: other in db.rows && other != account
               && db.rows[other].baseline.reference == Some(reference) then (db, Aborted)
    else
      var was := db.rows[account];
      var b := was.baseline.(reference := Some(reference), providerStatus := Some(status), substatus := SessionOpen,
                             state := StateNotStarted, providerUpdatedAt := Some(at));
      (db.(rows := db.rows[account := was.(baseline := b, updatedAt := at)],
           claimed := db.claimed + {StartedKey(reference)},
           history := db.history + [Entry(account, StateNotStarted, StateNotStarted, Reason.SessionStarted, at)]),
               Done(true))
  }

  ghost function Fail(db: Db, account: Id, id: Id, at: int): (Db, Answer) {
    if account !in db.rows || !IsCreating(db.rows[account], id) then (db, Done(false))
    else if StartFailedKey(id) in db.claimed then (db, Aborted)
    else
      var was := db.rows[account];
      (db.(rows := db.rows[account :=
          was.(baseline := was.baseline.(substatus := SessionCreationFailed), updatedAt := at)],
           claimed := db.claimed + {StartFailedKey(id)}), Done(true))
  }

  ghost function ReserveAddress(db: Db, account: Id, id: Id, at: int): (Db, Answer) {
    if account !in db.accounts || account !in db.rows || !db.rows[account].baseline.state.Eligible?
       || !CanStartAddress(db.rows[account].address.status, db.rows[account].address.currentUntil, at) then
      (db, Done(false))
    else if exists other :: other in db.rows && other != account && db.rows[other].address.startId == Some(id) then
      (db, Aborted)
    else
      var was := db.rows[account];
      (db.(rows := db.rows[account :=
          was.(address := was.address.(status := AddressCreating, startId := Some(id)), updatedAt := at)]),
       Done(true))
  }

  ghost function CompleteAddress(db: Db, account: Id, id: Id, reference: Id, status: DiditStatus, at: int): (Db,
      Answer) {
    if account !in db.rows || !IsAddressCreating(db.rows[account], id) then (db, Done(false))
    else if AddressStartedKey(reference) in db.claimed
         || exists other :: other in db.rows && other != account
               && db.rows[other].address.reference == Some(reference) then (db, Aborted)
    else
      var was := db.rows[account];
      var a := was.address.(reference := Some(reference), providerStatus := Some(status),
                            providerUpdatedAt := Some(at), status := AddressInProgress);
      (db.(rows := db.rows[account := was.(address := a, updatedAt := at)],
           claimed := db.claimed + {AddressStartedKey(reference)},
           history := db.history + [Entry(account, Eligible, Eligible, AddressSessionStarted, at)]), Done(true))
  }

  ghost function FailAddress(db: Db, account: Id, id: Id, at: int): (Db, Answer) {
    if account !in db.rows || !IsAddressCreating(db.rows[account], id) then (db, Done(false))
    else if AddressStartFailedKey(id) in db.claimed then (db, Aborted)
    else
      var was := db.rows[account];
      (db.(rows := db.rows[account := was.(address := was.address.(status := AddressCreationFailed), updatedAt := at)],
           claimed := db.claimed + {AddressStartFailedKey(id)}), Done(true))
  }

  // ---- Provider outcomes, as functions ----

  predicate IsStale(providerUpdatedAt: Option<int>, at: int) {
    providerUpdatedAt.Some? && providerUpdatedAt.value > at
  }

  function Later(a: int, b: int): int { if a > b then a else b }

  function Override<T>(next: Option<T>, was: Option<T>): Option<T> { if next.Some? then next else was }

  /** The row after a baseline outcome, unless the row already holds something newer. */
  function BaselineRow(row: Row, status: Option<DiditStatus>, at: int, o: PolicyOutcome): (r: Row)
    ensures r.baseline.startId == row.baseline.startId && r.baseline.reference == row.baseline.reference
              && r.address == row.address
  {
    if IsStale(row.baseline.providerUpdatedAt, at) then row
    else
      var addressCurrent := row.address.status.Current? && row.address.currentUntil.Some?
          && row.address.currentUntil.value > at;
      row.(baseline := row.baseline.(
             providerStatus := status,
             providerUpdatedAt := Some(at),
             state := o.state,
             substatus := if o.state.Eligible? && addressCurrent then Verified else o.substatus,
             everReviewed := o.everReviewed,
             lastVerifiedAt := Override(o.lastVerifiedAt, row.baseline.lastVerifiedAt),
             renewalDueAt := Override(o.renewalDueAt, row.baseline.renewalDueAt)),
           updatedAt := Later(at, row.updatedAt))
  }

  function AddressRow(row: Row, status: Option<DiditStatus>, at: int, o: AddressOutcome): (r: Row)
    ensures r.baseline == row.baseline.(substatus := r.baseline.substatus)
    ensures r.address.startId == row.address.startId && r.address.reference == row.address.reference
  {
    if IsStale(row.address.providerUpdatedAt, at) then row
    else
      row.(address := row.address.(
             providerStatus := status,
             providerUpdatedAt := Some(at),
             status := o.status,
             currentUntil := o.currentUntil),
           baseline := row.baseline.(
             substatus := if !row.baseline.state.Eligible? then row.baseline.substatus
                          else if o.status.Current? then Verified
                          else VerifiedOwnerPoaMissing),
           updatedAt := Later(at, row.updatedAt))
  }

  ghost predicate Holds(db: Db, reference: Id, account: Id) {
    account in db.rows && db.rows[account].baseline.reference == Some(reference)
  }

  ghost predicate HoldsAddress(db: Db, reference: Id, account: Id) {
    account in db.rows && db.rows[account].address.reference == Some(reference)
  }

  /** The account whose row carries a session reference, which is unique in the table. */
  ghost function Holder(db: Db, reference: Id): (a: Option<Id>)
    ensures a.Some? ==> Holds(db, reference, a.value)
    ensures a.None? ==> forall x :: !Holds(db, reference, x)
  {
    if exists x :: Holds(db, reference, x) then var x :| Holds(db, reference, x); Some(x) else None
  }

  ghost function AddressHolder(db: Db, reference: Id): (a: Option<Id>)
    ensures a.Some? ==> HoldsAddress(db, reference, a.value)
    ensures a.None? ==> forall x :: !HoldsAddress(db, reference, x)
  {
    if exists x :: HoldsAddress(db, reference, x) then var x :| HoldsAddress(db, reference, x); Some(x) else None
  }

  ghost function Apply(db: Db, key: EventKey, reference: Id, status: Option<DiditStatus>, at: int,
      o: PolicyOutcome): (Db, Applied) {
    if key in db.claimed then (db, Duplicate)
    else
      var seen := db.(claimed := db.claimed + {key});
      match Holder(db, reference)
      case None => (seen, Unmatched)
      case Some(account) =>
        var was := db.rows[account];
        if IsStale(was.baseline.providerUpdatedAt, at) then (seen, Stale)
        else (seen.(rows := db.rows[account := BaselineRow(was, status, at, o)],
                    history := db.history + [Entry(account, was.baseline.state, o.state, o.reason, at)]), WasApplied)
  }

  ghost function ApplyAddress(db: Db, key: EventKey, reference: Id, status: Option<DiditStatus>, at: int,
      o: AddressOutcome): (Db, Applied) {
    if key in db.claimed then (db, Duplicate)
    else
      var seen := db.(claimed := db.claimed + {key});
      match AddressHolder(db, reference)
      case None => (seen, Unmatched)
      case Some(account) =>
        var was := db.rows[account];
        if IsStale(was.address.providerUpdatedAt, at) then (seen, Stale)
        else (seen.(rows := db.rows[account := AddressRow(was, status, at, o)],
                    history := db.history + [Entry(account, was.baseline.state, was.baseline.state, o.reason, at)]),
                        WasApplied)
  }

  ghost function Renew(db: Db, account: Id, at: int): (Db, bool) {
    if account !in db.rows || !db.rows[account].baseline.state.Eligible? then (db, false)
    else
      var was := db.rows[account];
      (db.(rows := db.rows[account := was.(
             baseline := was.baseline.(state := RequiresRenewal, substatus := ReverificationRequired),
                 updatedAt := at)],
           history := db.history + [Entry(account, Eligible, RequiresRenewal, RenewalDue, at)]), true)
  }

  // ---- The invariant of the table ----

  ghost predicate RowOk(r: Row) {
    && (r.baseline.state.Eligible? <==> r.baseline.substatus.Verified? || r.baseline.substatus.VerifiedOwnerPoaMissing?)
    && (r.baseline.state.Eligible? ==>
          && r.baseline.lastVerifiedAt.Some?
          && r.baseline.renewalDueAt
                == Some(Calendar.AddMonths(r.baseline.lastVerifiedAt.value, RenewalMonths(r.baseline.everReviewed))))
    && (r.baseline.substatus.Verified? ==> r.address.currentUntil.Some?)
    && (r.address.status.Current? ==> r.address.currentUntil.Some?)
    && (r.baseline.substatus.SessionCreating? ==> r.baseline.startId.Some?)
    && (r.baseline.substatus.SessionOpen? ==> r.baseline.reference.Some?)
    && (r.address.status.AddressCreating? ==> r.address.startId.Some?)
    && (r.address.status.AddressInProgress? ==> r.address.reference.Some?)
  }

  ghost predicate Distinct(a: Row, b: Row) {
    && (a.baseline.reference.Some? ==> a.baseline.reference != b.baseline.reference)
    && (a.baseline.startId.Some? ==> a.baseline.startId != b.baseline.startId)
    && (a.address.reference.Some? ==> a.address.reference != b.address.reference)
    && (a.address.startId.Some? ==> a.address.startId != b.address.startId)
  }

  ghost predicate Unique(db: Db) {
    forall x, y :: x in db.rows && y in db.rows && x != y ==> Distinct(db.rows[x], db.rows[y])
  }

  ghost predicate Inv(db: Db) {
    Unique(db) && forall x :: x in db.rows ==> RowOk(db.rows[x])
  }

  /** In a table with unique references, the holder is the one row that carries the reference. */
  lemma HolderIs(db: Db, reference: Id, account: Id)
    requires Unique(db) && Holds(db, reference, account)
    ensures Holder(db, reference) == Some(account)
  {
    var h := Holder(db, reference).value;
    assert h != account ==> Distinct(db.rows[h], db.rows[account]);
  }

  lemma AddressHolderIs(db: Db, reference: Id, account: Id)
    requires Unique(db) && HoldsAddress(db, reference, account)
    ensures AddressHolder(db, reference) == Some(account)
  {
    var h := AddressHolder(db, reference).value;
    assert h != account ==> Distinct(db.rows[h], db.rows[account]);
  }
}
