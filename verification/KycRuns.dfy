/**
 * Every interleaving of the table's writers: a run is any sequence of transactions.
 * A provider outcome carries the columns its writer read earlier, which may be out of date by now.
 */
module KycRuns {
  import opened Base
  import opened KycPolicy
  import opened AddressPolicy
  import opened KycDb

  datatype Kind = BaselineSession | AddressSession

  datatype Step =
    | ReserveStep(account: Id, id: Id, residence: string, tax: string, at: int)
    | CompleteStep(account: Id, id: Id, reference: Id, status: DiditStatus, at: int)
    | FailStep(account: Id, id: Id, at: int)
    | ReserveAddressStep(account: Id, id: Id, at: int)
    | CompleteAddressStep(account: Id, id: Id, reference: Id, status: DiditStatus, at: int)
    | FailAddressStep(account: Id, id: Id, at: int)
    | OutcomeStep(key: EventKey, reference: Id, providerStatus: Option<DiditStatus>, decision: Option<Decision>,
        at: int,
                  readResidence: Option<string>, readTax: Option<string>, readReviewed: bool)
    | AddressOutcomeStep(key: EventKey, reference: Id, providerStatus: Option<DiditStatus>, decision: Option<Decision>,
        at: int,
                         readResidence: Option<string>)
    | UnmatchedStep(key: EventKey)
    | RenewStep(account: Id, at: int)

  function OutcomeOf(s: Step): PolicyOutcome
    requires s.OutcomeStep?
  {
    Evaluate(s.providerStatus, s.decision, s.readResidence, s.readTax, s.at, s.readReviewed)
  }

  function AddressOutcomeOf(s: Step): AddressOutcome
    requires s.AddressOutcomeStep?
  {
    EvaluateAddress(s.providerStatus, s.decision, s.readResidence, s.at)
  }

  /** One transaction: the table it leaves and whether it changed a row. */
  ghost function Do(db: Db, s: Step): (Db, bool) {
    match s
    case ReserveStep(a, id, residence, tax, at) => var (d, r) :=
        Reserve(db, a, id, residence, tax, at); (d, r == Done(true))
    case CompleteStep(a, id, reference, status, at) => var (d, r) :=
        Complete(db, a, id, reference, status, at); (d, r == Done(true))
    case FailStep(a, id, at) => var (d, r) := Fail(db, a, id, at); (d, r == Done(true))
    case ReserveAddressStep(a, id, at) => var (d, r) := ReserveAddress(db, a, id, at); (d, r == Done(true))
    case CompleteAddressStep(a, id, reference, status, at) =>
      var (d, r) := CompleteAddress(db, a, id, reference, status, at); (d, r == Done(true))
    case FailAddressStep(a, id, at) => var (d, r) := FailAddress(db, a, id, at); (d, r == Done(true))
    case OutcomeStep(key, reference, status, _, at, _, _, _) =>
      var (d, r) := Apply(db, key, reference, status, at, OutcomeOf(s)); (d, r.WasApplied?)
    case AddressOutcomeStep(key, reference, status, _, at, _) =>
      var (d, r) := ApplyAddress(db, key, reference, status, at, AddressOutcomeOf(s)); (d, r.WasApplied?)
    case UnmatchedStep(key) => (db.(claimed := db.claimed + {key}), false)
    case RenewStep(a, at) => Renew(db, a, at)
  }

  ghost function After(db: Db, steps: seq<Step>): Db {
    if steps == [] then db else Do(After(db, steps[..|steps| - 1]), steps[|steps| - 1]).0
  }

  function Empty(accounts: set<Id>): Db { Db(accounts, map[], {}, []) }

  // ---- Every reachable row is consistent ----

  // A transaction rewrites at most one row and says which.
  ghost predicate Rewrites(db: Db, next: Db, account: Id) {
    && next.accounts == db.accounts && db.claimed <= next.claimed
    && (next.rows == db.rows || (account in next.rows && next.rows == db.rows[account := next.rows[account]]))
  }

  /** The account a transaction writes, if it writes one. */
  ghost function Target(db: Db, s: Step): Id {
    match s
    case OutcomeStep(_, reference, _, _, _, _, _, _) => Override(Holder(db, reference), Some("")).value
    case AddressOutcomeStep(_, reference, _, _, _, _) => Override(AddressHolder(db, reference), Some("")).value
    case UnmatchedStep(_) => ""
    case _ => s.account
  }

  lemma DoRewrites(db: Db, s: Step)
    ensures Rewrites(db, Do(db, s).0, Target(db, s))
    ensures !Do(db, s).1 ==> Do(db, s).0.rows == db.rows && Do(db, s).0.history == db.history
  {
    hide Evaluate, EvaluateAddress, BaselineRow, AddressRow;
  }

  lemma BaselineRowOk(row: Row, s: Step)
    requires RowOk(row) && s.OutcomeStep? && row.baseline.reference.Some?
    ensures RowOk(BaselineRow(row, s.providerStatus, s.at, OutcomeOf(s)))
  {
    hide EvaluateStatus, Calendar.AddMonths, RenewalMonths;
  }

  lemma AddressRowOk(row: Row, s: Step)
    requires RowOk(row) && s.AddressOutcomeStep? && row.address.reference.Some?
    ensures RowOk(AddressRow(row, s.providerStatus, s.at, AddressOutcomeOf(s)))
  {
    hide ApprovedOutcome, Calendar.AddMonths, RenewalMonths;
  }

  lemma RowOkKept(db: Db, s: Step)
    requires Do(db, s).1 && (Target(db, s) in db.rows ==> RowOk(db.rows[Target(db, s)]))
    ensures Target(db, s) in Do(db, s).0.rows && RowOk(Do(db, s).0.rows[Target(db, s)])
  {
    hide Evaluate, EvaluateAddress, BaselineRow, AddressRow, Calendar.AddMonths, RenewalMonths;
    if s.OutcomeStep? {
      BaselineRowOk(db.rows[Target(db, s)], s);
    } else if s.AddressOutcomeStep? {
      AddressRowOk(db.rows[Target(db, s)], s);
    }
  }

  lemma DistinctKept(db: Db, s: Step, x: Id)
    requires Do(db, s).1 && x in db.rows && x != Target(db, s)
    requires Target(db, s) in db.rows ==>
               var r := db.rows[Target(db, s)]; Distinct(r, db.rows[x]) && Distinct(db.rows[x], r)
    ensures Target(db, s) in Do(db, s).0.rows
    ensures var r := Do(db, s).0.rows[Target(db, s)]; Distinct(r, db.rows[x]) && Distinct(db.rows[x], r)
  {
    hide Evaluate, EvaluateAddress;
  }

  lemma InvKept(db: Db, s: Step)
    requires Inv(db)
    ensures Inv(Do(db, s).0)
  {
    hide Do, RowOk, Distinct, Target;
    DoRewrites(db, s);
    if Do(db, s).1 {
      RowOkKept(db, s);
      forall x | x in db.rows && x != Target(db, s)
        ensures var r := Do(db, s).0.rows[Target(db, s)]; Distinct(r, db.rows[x]) && Distinct(db.rows[x], r)
      {
        DistinctKept(db, s, x);
      }
    }
  }

  /** Whatever transactions ran, in whatever order, every row of the table is consistent. */
  lemma {:induction false} EveryRunKeepsInv(db: Db, steps: seq<Step>)
    requires Inv(db)
    ensures Inv(After(db, steps))
  {
    hide Inv, Do;
    if steps != [] {
      EveryRunKeepsInv(db, steps[..|steps| - 1]);
      InvKept(After(db, steps[..|steps| - 1]), steps[|steps| - 1]);
    }
  }

  /** In every run an eligible account's renewal date lies after its last verification. */
  lemma RenewalIsAhead(accounts: set<Id>, steps: seq<Step>, account: Id)
    requires account in After(Empty(accounts), steps).rows
              && After(Empty(accounts), steps).rows[account].baseline.state.Eligible?
    ensures var b := After(Empty(accounts), steps).rows[account].baseline;
            b.lastVerifiedAt.Some? && b.renewalDueAt.Some? && b.renewalDueAt.value > b.lastVerifiedAt.value
  {
    hide After, Calendar.AddMonths;
    EveryRunKeepsInv(Empty(accounts), steps);
    var row := After(Empty(accounts), steps).rows[account];
    assert RowOk(row);
    Calendar.AddMonthsMovesForward(row.baseline.lastVerifiedAt.value, RenewalMonths(row.baseline.everReviewed));
  }
}
