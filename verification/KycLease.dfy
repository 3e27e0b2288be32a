/** What runs say about session starts, event keys and the manual-review flag. */
module KycLease {
  import opened Base
  import opened KycPolicy
  import opened AddressPolicy
  import opened KycDb
  import opened KycRuns

  function StartIdOf(kind: Kind, r: Row): Option<Id> {
    if kind.BaselineSession? then r.baseline.startId else r.address.startId
  }

  predicate Creating(kind: Kind, r: Row, id: Id) {
    if kind.BaselineSession? then IsCreating(r, id) else IsAddressCreating(r, id)
  }

  ghost predicate CreatingUnder(kind: Kind, db: Db, id: Id) {
    exists a :: a in db.rows && Creating(kind, db.rows[a], id)
  }

  predicate IsReserve(kind: Kind, s: Step, id: Id) {
    if kind.BaselineSession? then s.ReserveStep? && s.id == id else s.ReserveAddressStep? && s.id == id
  }

  predicate IsComplete(kind: Kind, s: Step, id: Id) {
    if kind.BaselineSession? then s.CompleteStep? && s.id == id else s.CompleteAddressStep? && s.id == id
  }

  predicate IsEnd(kind: Kind, s: Step, id: Id) {
    || IsComplete(kind, s, id)
    || if kind.BaselineSession? then s.FailStep? && s.id == id else s.FailAddressStep? && s.id == id
  }

  function Front(steps: seq<Step>): seq<Step> requires steps != [] { steps[..|steps| - 1] }

  function Last(steps: seq<Step>): Step requires steps != [] { steps[|steps| - 1] }

  ghost predicate LastTookEffect(db: Db, steps: seq<Step>)
    requires steps != []
  {
    Do(After(db, Front(steps)), Last(steps)).1
  }

  /** How many reservations under this start id took effect in the run. */
  ghost function Starts(kind: Kind, db: Db, steps: seq<Step>, id: Id): nat {
    if steps == [] then 0
    else Starts(kind, db, Front(steps), id) + if IsReserve(kind, Last(steps), id) && LastTookEffect(db, steps) then 1
        else 0
  }

  /** How many completions and failures under this start id took effect in the run. */
  ghost function Ends(kind: Kind, db: Db, steps: seq<Step>, id: Id): nat {
    if steps == [] then 0
    else Ends(kind, db, Front(steps), id) + if IsEnd(kind, Last(steps), id) && LastTookEffect(db, steps) then 1 else 0
  }

  // What one transaction does to the leases of one kind.
  lemma LeaseStep(kind: Kind, db: Db, s: Step, id: Id)
    requires Unique(db)
    ensures CreatingUnder(kind, Do(db, s).0, id) ==>
              CreatingUnder(kind, db, id) || (IsReserve(kind, s, id) && Do(db, s).1)
    ensures IsEnd(kind, s, id) && Do(db, s).1 ==> CreatingUnder(kind, db, id) && !CreatingUnder(kind, Do(db, s).0, id)
  {
    hide Evaluate, EvaluateAddress, Do, Target;
    var next := Do(db, s).0;
    DoRewrites(db, s);
    LeaseStepTarget(kind, db, s, id);
    forall a | a in next.rows && a != Target(db, s) ensures a in db.rows && next.rows[a] == db.rows[a] { }
    if IsEnd(kind, s, id) && Do(db, s).1 {
      forall a | a in next.rows ensures !Creating(kind, next.rows[a], id) {
        assert a != Target(db, s) ==> Distinct(db.rows[Target(db, s)], db.rows[a]);
      }
    }
  }

  lemma LeaseStepTarget(kind: Kind, db: Db, s: Step, id: Id)
    ensures var a, next := Target(db, s), Do(db, s).0;
            && (a in next.rows && Creating(kind, next.rows[a], id) ==>
                  (a in db.rows && Creating(kind, db.rows[a], id)) || (IsReserve(kind, s, id) && Do(db, s).1))
            && (IsEnd(kind, s, id) && Do(db, s).1 ==>
                  a in db.rows && Creating(kind, db.rows[a], id) && a in next.rows && !Creating(kind, next.rows[a], id))
  {
    hide EvaluateStatus, ApprovedOutcome;
  }

  /** Conservation of leases: every effective end consumes one effective start. */
  lemma {:induction false} LeasesConserved(kind: Kind, db: Db, steps: seq<Step>, id: Id)
    requires Inv(db) && !CreatingUnder(kind, db, id)
    ensures Ends(kind, db, steps, id) +
              (if CreatingUnder(kind, After(db, steps), id) then 1 else 0) <= Starts(kind, db, steps, id)
  {
    hide Do, Inv, CreatingUnder;
    if steps != [] {
      LeasesConserved(kind, db, Front(steps), id);
      EveryRunKeepsInv(db, Front(steps));
      UniqueOfInv(After(db, Front(steps)));
      LeaseStep(kind, After(db, Front(steps)), Last(steps), id);
    }
  }

  lemma UniqueOfInv(db: Db)
    requires Inv(db)
    ensures Unique(db)
  {
  }

  /** The number of reservation requests made with this id, effective or not. */
  function Requests(kind: Kind, steps: seq<Step>, id: Id): nat {
    if steps == [] then 0 else Requests(kind, Front(steps), id) + if IsReserve(kind, Last(steps), id) then 1 else 0
  }

  /** A start id generated once is ended at most once, however starts, timers and webhooks interleave. */
  lemma {:induction false} EndedAtMostOnce(kind: Kind, db: Db, steps: seq<Step>, id: Id)
    requires Inv(db) && !CreatingUnder(kind, db, id) && Requests(kind, steps, id) <= 1
    ensures Ends(kind, db, steps, id) <= 1
  {
    LeasesConserved(kind, db, steps, id);
    StartsAreRequested(kind, db, steps, id);
  }

  lemma {:induction false} StartsAreRequested(kind: Kind, db: Db, steps: seq<Step>, id: Id)
    ensures Starts(kind, db, steps, id) <= Requests(kind, steps, id)
  {
    hide Do;
    if steps != [] { StartsAreRequested(kind, db, Front(steps), id); }
  }

  predicate ReservesFor(kind: Kind, s: Step, account: Id) {
    (if kind.BaselineSession? then s.ReserveStep? else s.ReserveAddressStep?) && s.account == account
  }

  ghost function HeldStart(kind: Kind, db: Db, account: Id): Option<Id> {
    if account in db.rows then StartIdOf(kind, db.rows[account]) else None
  }

  /** The id of the account's latest effective reservation, or the one its row held before the run. */
  ghost function LatestStart(kind: Kind, db: Db, steps: seq<Step>, account: Id): Option<Id> {
    if steps == [] then HeldStart(kind, db, account)
    else if LastTookEffect(db, steps) && ReservesFor(kind, Last(steps), account) then Some(Last(steps).id)
    else LatestStart(kind, db, Front(steps), account)
  }

  lemma StartIdStep(kind: Kind, db: Db, s: Step, account: Id)
    ensures HeldStart(kind, Do(db, s).0, account) ==
            if Do(db, s).1 && ReservesFor(kind, s, account) then Some(s.id) else HeldStart(kind, db, account)
  {
    hide Do, Target;
    DoRewrites(db, s);
    StartIdTarget(kind, db, s);
  }

  lemma StartIdTarget(kind: Kind, db: Db, s: Step)
    ensures HeldStart(kind, Do(db, s).0, Target(db, s)) ==
            if Do(db, s).1 && ReservesFor(kind, s, Target(db, s)) then Some(s.id)
                else HeldStart(kind, db, Target(db, s))
    ensures s.ReserveStep? || s.ReserveAddressStep? ==> Target(db, s) == s.account
  {
    hide Evaluate, EvaluateAddress, BaselineRow, AddressRow;
  }

  lemma {:induction false} RowHoldsLatestStart(kind: Kind, db: Db, steps: seq<Step>, account: Id)
    ensures HeldStart(kind, After(db, steps), account) == LatestStart(kind, db, steps, account)
  {
    hide Do, HeldStart;
    if steps != [] {
      RowHoldsLatestStart(kind, db, Front(steps), account);
      StartIdStep(kind, After(db, Front(steps)), Last(steps), account);
    }
  }

  // ---- The countries declared at a start ----

  /** The account's latest effective reservation in the run. */
  ghost function LatestReservation(db: Db, steps: seq<Step>, account: Id): (r: Option<Step>)
    ensures r.Some? ==> r.value in steps && ReservesFor(BaselineSession, r.value, account)
  {
    if steps == [] then None
    else if LastTookEffect(db, steps) && ReservesFor(BaselineSession, Last(steps), account) then Some(Last(steps))
    else LatestReservation(db, Front(steps), account)
  }

  ghost predicate Declared(db: Db, account: Id, residence: Option<string>, tax: Option<string>) {
    account in db.rows && db.rows[account].residence == residence && db.rows[account].tax == tax
  }

  ghost predicate SameCountries(db: Db, next: Db, account: Id) {
    if account in db.rows then Declared(next, account, db.rows[account].residence, db.rows[account].tax)
    else account !in next.rows
  }

  // A reservation declares the countries; nothing else changes them.
  lemma CountriesStep(db: Db, s: Step, account: Id)
    ensures if Do(db, s).1 && ReservesFor(BaselineSession, s, account)
            then Declared(Do(db, s).0, account, Some(s.residence), Some(s.tax))
            else SameCountries(db, Do(db, s).0, account)
  {
    hide Do, Target;
    DoRewrites(db, s);
    CountriesTarget(db, s);
  }

  lemma CountriesTarget(db: Db, s: Step)
    ensures var account := Target(db, s);
            if Do(db, s).1 && ReservesFor(BaselineSession, s, account)
            then Declared(Do(db, s).0, account, Some(s.residence), Some(s.tax))
            else SameCountries(db, Do(db, s).0, account)
    ensures s.ReserveStep? ==> Target(db, s) == s.account
  {
    hide Evaluate, EvaluateAddress, BaselineRow, AddressRow;
    if s.OutcomeStep? && Holder(db, s.reference).Some? {
      OutcomesKeepCountries(db.rows[Target(db, s)], s);
    } else if s.AddressOutcomeStep? && AddressHolder(db, s.reference).Some? {
      OutcomesKeepCountries(db.rows[Target(db, s)], s);
    }
  }

  lemma OutcomesKeepCountries(row: Row, s: Step)
    ensures s.OutcomeStep? ==>
              var r := BaselineRow(row, s.providerStatus, s.at, OutcomeOf(s));
              r.residence == row.residence && r.tax == row.tax
    ensures s.AddressOutcomeStep? ==>
              var r := AddressRow(row, s.providerStatus, s.at, AddressOutcomeOf(s));
              r.residence == row.residence && r.tax == row.tax
  {
    hide Evaluate, EvaluateAddress;
  }

  /** In every run a row's countries are those its account declared at its latest effective start. */
  lemma {:induction false} RowHoldsDeclared(db: Db, steps: seq<Step>, account: Id)
    ensures match LatestReservation(db, steps, account)
            case Some(s) => Declared(After(db, steps), account, Some(s.residence), Some(s.tax))
            case None => SameCountries(db, After(db, steps), account)
  {
    hide Do;
    if steps != [] {
      RowHoldsDeclared(db, Front(steps), account);
      CountriesStep(After(db, Front(steps)), Last(steps), account);
    }
  }

  /** While the row still carries a start id that nothing reserved again, it carries the countries of that start. */
  lemma {:induction false} CountriesStayWithStart(db: Db, steps: seq<Step>, account: Id, id: Id)
    requires account in db.rows && (forall s :: s in steps ==> !IsReserve(BaselineSession, s, id))
    ensures account in After(db, steps).rows
    ensures HeldStart(BaselineSession, After(db, steps), account) == Some(id) ==>
              HeldStart(BaselineSession, db, account) == Some(id) && SameCountries(db, After(db, steps), account)
  {
    hide Do, HeldStart;
    if steps != [] {
      assert Last(steps) in steps && forall s :: s in Front(steps) ==> s in steps;
      CountriesStayWithStart(db, Front(steps), account, id);
      CountriesStep(After(db, Front(steps)), Last(steps), account);
      StartIdStep(BaselineSession, After(db, Front(steps)), Last(steps), account);
    }
  }

  /** Only the latest reservation of an account can be completed. */
  lemma OnlyLatestCompletes(kind: Kind, db: Db, steps: seq<Step>, s: Step, id: Id)
    requires IsComplete(kind, s, id) && Do(After(db, steps), s).1
    ensures LatestStart(kind, db, steps, s.account) == Some(id)
  {
    RowHoldsLatestStart(kind, db, steps, s.account);
    hide After, LatestStart;
  }

  /** A start id that is no longer being created stays that way until it is reserved again. */
  lemma {:induction false} StaysReleased(kind: Kind, db: Db, steps: seq<Step>, id: Id)
    requires Inv(db) && !CreatingUnder(kind, db, id) && Requests(kind, steps, id) == 0
    ensures !CreatingUnder(kind, After(db, steps), id)
  {
    LeasesConserved(kind, db, steps, id);
    StartsAreRequested(kind, db, steps, id);
  }

  // ---- Each event key is applied at most once ----

  predicate IsEvent(s: Step, key: EventKey) {
    (s.OutcomeStep? || s.AddressOutcomeStep?) && s.key == key
  }

  ghost function TimesApplied(db: Db, steps: seq<Step>, key: EventKey): nat {
    if steps == [] then 0
    else TimesApplied(db, Front(steps), key) + if IsEvent(Last(steps), key) && LastTookEffect(db, steps) then 1 else 0
  }

  lemma ClaimStep(db: Db, s: Step, key: EventKey)
    ensures db.claimed <= Do(db, s).0.claimed
    ensures IsEvent(s, key) && Do(db, s).1 ==> key !in db.claimed && key in Do(db, s).0.claimed
  {
    hide Evaluate, EvaluateAddress, BaselineRow, AddressRow;
  }

  /** However often an event is delivered, it is applied at most once, and never after its key was claimed. */
  lemma {:induction false} AppliedAtMostOnce(db: Db, steps: seq<Step>, key: EventKey)
    ensures TimesApplied(db, steps, key) <= 1
    ensures TimesApplied(db, steps, key) == 1 ==> key !in db.claimed && key in After(db, steps).claimed
    ensures db.claimed <= After(db, steps).claimed
  {
    hide Do;
    if steps != [] {
      AppliedAtMostOnce(db, Front(steps), key);
      ClaimStep(After(db, Front(steps)), Last(steps), key);
    }
  }

  // ---- The manual-review flag ----

  ghost predicate Flagged(db: Db, account: Id) {
    account in db.rows && db.rows[account].baseline.everReviewed
  }

  /**
   * A transaction clears the flag exactly when it applies an outcome whose writer read the row
   * before the flag was set and whose own decision needs no review.
   */
  lemma FlagClearedIff(db: Db, s: Step, account: Id)
    requires Flagged(db, account)
    ensures !Flagged(Do(db, s).0, account) <==>
            && s.OutcomeStep? && s.key !in db.claimed && Holder(db, s.reference) == Some(account)
            && !IsStale(db.rows[account].baseline.providerUpdatedAt, s.at)
            && !s.readReviewed && !OutcomeOf(s).substatus.ManualReview?
  {
    hide EvaluateStatus, ApprovedOutcome;
    DoRewrites(db, s);
  }

  /** A step reads what it needs from the row it then writes, with no other write in between. */
  ghost predicate ReadsCurrentFlag(db: Db, s: Step) {
    s.OutcomeStep? && Holder(db, s.reference).Some? ==>
        s.readReviewed == db.rows[Holder(db, s.reference).value].baseline.everReviewed
  }

  ghost predicate Serial(db: Db, steps: seq<Step>) {
    steps == [] || (Serial(db, Front(steps)) && ReadsCurrentFlag(After(db, Front(steps)), Last(steps)))
  }

  /** In serial runs the flag is never cleared. */
  lemma {:induction false} FlagIsLatchedWhenSerial(db: Db, steps: seq<Step>, account: Id)
    requires Flagged(db, account) && Serial(db, steps)
    ensures Flagged(After(db, steps), account)
  {
    hide Do, IsStale, OutcomeOf;
    if steps != [] {
      FlagIsLatchedWhenSerial(db, Front(steps), account);
      FlagClearedIff(After(db, Front(steps)), Last(steps), account);
    }
  }

  /** A decision under review sets the flag. */
  lemma ReviewSetsFlag(db: Db, s: Step)
    requires s.OutcomeStep? && OutcomeOf(s).substatus.ManualReview? && Do(db, s).1
    ensures Flagged(Do(db, s).0, Target(db, s))
  {
    hide EvaluateStatus;
  }
}
