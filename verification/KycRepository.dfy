/** The repository object: the stored table, and one method per transaction that updates it in place. */
module KycRepository {
  import opened Base
  import opened KycPolicy
  import opened AddressPolicy
  import opened KycDb

  class Repository {
    var accounts: set<Id>
    var rows: map<Id, Row>
    var claimed: set<EventKey>
    var history: seq<Entry>

    ghost function View(): Db
      reads this
    {
      Db(accounts, rows, claimed, history)
    }

    constructor (accounts: set<Id>)
      ensures View() == Db(accounts, map[], {}, [])
    {
      this.accounts, rows, claimed, history := accounts, map[], {}, [];
    }

    // ---- Session starts ----

    method ReserveSessionStart(account: Id, id: Id, residence: string, tax: string, at: int) returns (r: Answer)
      modifies this
      ensures (View(), r) == Reserve(old(View()), account, id, residence, tax, at)
    {
      if account !in accounts { return Done(false); }
      if account in rows && !CanStartSession(rows[account].baseline.substatus) { return Done(false); }
      if exists other :: other in rows && other != account && rows[other].baseline.startId == Some(id) {
        return Aborted;
      }
      var row := Row(Some(residence), Some(tax), NO_BASELINE, NO_ADDRESS, at);
      if account in rows {
        row := row.(baseline := rows[account].baseline, address := rows[account].address);
      }
      rows := rows[account := row.(baseline := row.baseline.(substatus := SessionCreating, startId := Some(id)))];
      return Done(true);
    }

    method CompleteSessionStart(account: Id, id: Id, reference: Id, status: DiditStatus, at: int) returns (r: Answer)
      modifies this
      ensures (View(), r) == Complete(old(View()), account, id, reference, status, at)
    {
      if account !in rows || !IsCreating(rows[account], id) { return Done(false); }
      if StartedKey(reference) in claimed
         || exists other :: other in rows && other != account && rows[other].baseline.reference == Some(reference) {
        return Aborted;
      }
      var row := rows[account];
      row := row.(
        baseline := row.baseline.(
          reference := Some(reference), providerStatus := Some(status), substatus := SessionOpen,
          state := StateNotStarted, providerUpdatedAt := Some(at)),
        updatedAt := at);
      rows := rows[account := row];
      history := history + [Entry(account, StateNotStarted, StateNotStarted, Reason.SessionStarted, at)];
      claimed := claimed + {StartedKey(reference)};
      return Done(true);
    }

    method FailSessionStart(account: Id, id: Id, at: int) returns (r: Answer)
      modifies this
      ensures (View(), r) == Fail(old(View()), account, id, at)
    {
      if account !in rows || !IsCreating(rows[account], id) { return Done(false); }
      if StartFailedKey(id) in claimed { return Aborted; }
      var row := rows[account];
      rows := rows[account := row.(baseline := row.baseline.(substatus := SessionCreationFailed), updatedAt := at)];
      claimed := claimed + {StartFailedKey(id)};
      return Done(true);
    }

    method ReserveAddressSessionStart(account: Id, id: Id, at: int) returns (r: Answer)
      modifies this
      ensures (View(), r) == ReserveAddress(old(View()), account, id, at)
    {
      if account !in accounts || account !in rows { return Done(false); }
      var row := rows[account];
      if !row.baseline.state.Eligible? || !CanStartAddress(row.address.status, row.address.currentUntil, at) {
        return Done(false);
      }
      if exists other :: other in rows && other != account && rows[other].address.startId == Some(id) {
        return Aborted;
      }
      rows := rows[account :=
          row.(address := row.address.(status := AddressCreating, startId := Some(id)), updatedAt := at)];
      return Done(true);
    }

    method CompleteAddressSessionStart(account: Id, id: Id, reference: Id, status: DiditStatus,
        at: int) returns (r: Answer)
      modifies this
      ensures (View(), r) == CompleteAddress(old(View()), account, id, reference, status, at)
    {
      if account !in rows || !IsAddressCreating(rows[account], id) { return Done(false); }
      if AddressStartedKey(reference) in claimed
         || exists other :: other in rows && other != account && rows[other].address.reference == Some(reference) {
        return Aborted;
      }
      var row := rows[account];
      row := row.(
        address := row.address.(
          reference := Some(reference), providerStatus := Some(status),
          providerUpdatedAt := Some(at), status := AddressInProgress),
        updatedAt := at);
      rows := rows[account := row];
      history := history + [Entry(account, Eligible, Eligible, AddressSessionStarted, at)];
      claimed := claimed + {AddressStartedKey(reference)};
      return Done(true);
    }

    method FailAddressSessionStart(account: Id, id: Id, at: int) returns (r: Answer)
      modifies this
      ensures (View(), r) == FailAddress(old(View()), account, id, at)
    {
      if account !in rows || !IsAddressCreating(rows[account], id) { return Done(false); }
      if AddressStartFailedKey(id) in claimed { return Aborted; }
      var row := rows[account];
      rows := rows[account := row.(address := row.address.(status := AddressCreationFailed), updatedAt := at)];
      claimed := claimed + {AddressStartFailedKey(id)};
      return Done(true);
    }

    // ---- Lookups ----

    method FindByReference(reference: Id) returns (r: Option<Id>)
      requires Unique(View())
      ensures r == Holder(View(), reference)
    {
      var keys := rows.Keys;
      while keys != {}
        invariant keys <= rows.Keys
        invariant forall a :: a in rows && a !in keys ==> !Holds(View(), reference, a)
        decreases |keys|
      {
        var a :| a in keys;
        if rows[a].baseline.reference == Some(reference) {
          HolderIs(View(), reference, a);
          return Some(a);
        }
        keys := keys - {a};
      }
      return None;
    }

    method FindByAddressReference(reference: Id) returns (r: Option<Id>)
      requires Unique(View())
      ensures r == AddressHolder(View(), reference)
    {
      var keys := rows.Keys;
      while keys != {}
        invariant keys <= rows.Keys
        invariant forall a :: a in rows && a !in keys ==> !HoldsAddress(View(), reference, a)
        decreases |keys|
      {
        var a :| a in keys;
        if rows[a].address.reference == Some(reference) {
          AddressHolderIs(View(), reference, a);
          return Some(a);
        }
        keys := keys - {a};
      }
      return None;
    }

    // ---- Provider outcomes ----

    method ApplyProviderOutcome(key: EventKey, reference: Id, status: Option<DiditStatus>, at: int,
        o: PolicyOutcome) returns (r: Applied)
      requires Unique(View())
      modifies this
      ensures (View(), r) == Apply(old(View()), key, reference, status, at, o)
    {
      hide Unique, Holder;
      if key in claimed { return Duplicate; }
      var holder := FindByReference(reference);
      claimed := claimed + {key};
      if holder.None? { return Unmatched; }
      var row := rows[holder.value];
      if row.baseline.providerUpdatedAt.Some? && row.baseline.providerUpdatedAt.value > at { return Stale; }
      var b := row.baseline.(
        providerStatus := status, providerUpdatedAt := Some(at), state := o.state,
        substatus := o.substatus, everReviewed := o.everReviewed);
      if o.state.Eligible? && row.address.status.Current? && row.address.currentUntil.Some?
          && row.address.currentUntil.value > at {
        b := b.(substatus := Verified);
      }
      if o.lastVerifiedAt.Some? { b := b.(lastVerifiedAt := o.lastVerifiedAt); }
      if o.renewalDueAt.Some? { b := b.(renewalDueAt := o.renewalDueAt); }
      var updated := row.(baseline := b, updatedAt := if at > row.updatedAt then at else row.updatedAt);
      assert updated == BaselineRow(row, status, at, o);
      hide BaselineRow;
      rows := rows[holder.value := updated];
      history := history + [Entry(holder.value, row.baseline.state, o.state, o.reason, at)];
      return WasApplied;
    }

    method ApplyAddressOutcome(key: EventKey, reference: Id, status: Option<DiditStatus>, at: int,
        o: AddressOutcome) returns (r: Applied)
      requires Unique(View())
      modifies this
      ensures (View(), r) == ApplyAddress(old(View()), key, reference, status, at, o)
    {
      hide Unique, AddressHolder;
      if key in claimed { return Duplicate; }
      var holder := FindByAddressReference(reference);
      claimed := claimed + {key};
      if holder.None? { return Unmatched; }
      var row := rows[holder.value];
      if row.address.providerUpdatedAt.Some? && row.address.providerUpdatedAt.value > at { return Stale; }
      var substatus := row.baseline.substatus;
      if row.baseline.state.Eligible? {
        substatus := if o.status.Current? then Verified else VerifiedOwnerPoaMissing;
      }
      rows := rows[holder.value := row.(
        address := row.address.(
          providerStatus := status, providerUpdatedAt := Some(at), status := o.status, currentUntil := o.currentUntil),
        baseline := row.baseline.(substatus := substatus),
        updatedAt := if at > row.updatedAt then at else row.updatedAt)];
      history := history + [Entry(holder.value, row.baseline.state, row.baseline.state, o.reason, at)];
      return WasApplied;
    }

    method RecordUnmatched(key: EventKey)
      modifies this
      ensures View() == old(View()).(claimed := old(claimed) + {key})
    {
      claimed := claimed + {key};
    }

    method TransitionToRequiresRenewal(account: Id, at: int) returns (moved: bool)
      modifies this
      ensures (View(), moved) == Renew(old(View()), account, at)
    {
      if account !in rows || !rows[account].baseline.state.Eligible? { return false; }
      var row := rows[account];
      rows := rows[account := row.(
        baseline := row.baseline.(state := RequiresRenewal, substatus := ReverificationRequired), updatedAt := at)];
      history := history + [Entry(account, Eligible, RequiresRenewal, RenewalDue, at)];
      return true;
    }
  }
}
