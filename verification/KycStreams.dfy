/**
 * The two streams of provider events on one account: baseline outcomes and proof-of-address outcomes,
 * each delivered at least once and in any order.
 */
module KycStreams {
  import opened Base
  import opened KycPolicy
  import opened AddressPolicy
  import opened KycDb
  import opened KycRuns
  import opened KycLease

  // ---- The streams commute ----

  /** The one case in which the order shows: an approval timed after the address evidence already ended. */
  ghost predicate Clash(db: Db, b: Step, p: Step)
    requires b.OutcomeStep? && p.AddressOutcomeStep?
  {
    && b.key !in db.claimed && p.key !in db.claimed
    && Holder(db, b.reference).Some? && AddressHolder(db, p.reference) == Holder(db, b.reference)
    && var row := db.rows[Holder(db, b.reference).value];
    && !IsStale(row.baseline.providerUpdatedAt, b.at) && !IsStale(row.address.providerUpdatedAt, p.at)
    && OutcomeOf(b).state.Eligible?
    && AddressOutcomeOf(p).status.Current? && AddressOutcomeOf(p).currentUntil.value <= b.at
  }

  lemma RowsCommuteIff(row: Row, b: Step, p: Step)
    requires b.OutcomeStep? && p.AddressOutcomeStep?
    ensures AddressRow(BaselineRow(row, b.providerStatus, b.at, OutcomeOf(b)), p.providerStatus, p.at,
              AddressOutcomeOf(p))
         == BaselineRow(AddressRow(row, p.providerStatus, p.at, AddressOutcomeOf(p)), b.providerStatus, b.at,
             OutcomeOf(b))
        <==> !(&& !IsStale(row.baseline.providerUpdatedAt, b.at) && !IsStale(row.address.providerUpdatedAt, p.at)
               && OutcomeOf(b).state.Eligible?
               && AddressOutcomeOf(p).status.Current? && AddressOutcomeOf(p).currentUntil.value <= b.at)
  {
    hide Evaluate, EvaluateAddress;
  }

  // Applying an outcome leaves both references of every row, and so both holders, where they were.
  lemma HoldersKept(db: Db, s: Step, reference: Id)
    requires Unique(db) && (s.OutcomeStep? || s.AddressOutcomeStep?)
    ensures Holder(Do(db, s).0, reference) == Holder(db, reference)
    ensures AddressHolder(Do(db, s).0, reference) == AddressHolder(db, reference)
  {
    hide Evaluate, EvaluateAddress, Holder, AddressHolder;
    var next := Do(db, s).0;
    SameReferences(db, s);
    forall x ensures Holds(next, reference, x) == Holds(db, reference, x)
        && HoldsAddress(next, reference, x) == HoldsAddress(db, reference, x) { }
    if Holder(db, reference).Some? { HolderIs(next, reference, Holder(db, reference).value); }
    if AddressHolder(db, reference).Some? { AddressHolderIs(next, reference, AddressHolder(db, reference).value); }
  }

  lemma SameReferences(db: Db, s: Step)
    requires s.OutcomeStep? || s.AddressOutcomeStep?
    ensures var next := Do(db, s).0;
            && next.rows.Keys == db.rows.Keys
            && (forall x :: x in db.rows ==>
                  && next.rows[x].baseline.reference == db.rows[x].baseline.reference
                  && next.rows[x].address.reference == db.rows[x].address.reference
                  && next.rows[x].baseline.startId == db.rows[x].baseline.startId
                  && next.rows[x].address.startId == db.rows[x].address.startId
                  && next.rows[x].residence == db.rows[x].residence && next.rows[x].tax == db.rows[x].tax)
            && (Unique(db) ==> Unique(next))
  {
    hide Evaluate, EvaluateAddress, Holder, AddressHolder, Unique;
    if s.OutcomeStep? { OutcomeRows(db, s); } else { AddressOutcomeRows(db, s); }
    UniqueByReference(db, Do(db, s).0);
  }

  lemma UniqueByReference(db: Db, next: Db)
    requires next.rows.Keys == db.rows.Keys
    requires forall x :: x in db.rows ==>
               && next.rows[x].baseline.reference == db.rows[x].baseline.reference
               && next.rows[x].address.reference == db.rows[x].address.reference
               && next.rows[x].baseline.startId == db.rows[x].baseline.startId
               && next.rows[x].address.startId == db.rows[x].address.startId
    ensures Unique(db) ==> Unique(next)
  {
  }

  // An outcome rewrites its holder's row by BaselineRow or AddressRow and claims its key.
  lemma OutcomeRows(db: Db, b: Step)
    requires b.OutcomeStep?
    ensures Do(db, b).0.claimed == db.claimed + {b.key}
    ensures Do(db, b).0.rows ==
            if b.key in db.claimed || Holder(db, b.reference).None? then db.rows
            else
              var a := Holder(db, b.reference).value;
              db.rows[a := BaselineRow(db.rows[a], b.providerStatus, b.at, OutcomeOf(b))]
  {
    hide OutcomeOf;
  }

  lemma AddressOutcomeRows(db: Db, p: Step)
    requires p.AddressOutcomeStep?
    ensures Do(db, p).0.claimed == db.claimed + {p.key}
    ensures Do(db, p).0.rows ==
            if p.key in db.claimed || AddressHolder(db, p.reference).None? then db.rows
            else
              var a := AddressHolder(db, p.reference).value;
              db.rows[a := AddressRow(db.rows[a], p.providerStatus, p.at, AddressOutcomeOf(p))]
  {
    hide AddressOutcomeOf;
  }

  // The four row updates of the two orders.
  lemma BothOrders(db: Db, b: Step, p: Step)
    requires Unique(db) && b.OutcomeStep? && p.AddressOutcomeStep? && b.key != p.key
    ensures var bp, pb := Do(Do(db, b).0, p).0, Do(Do(db, p).0, b).0;
            && bp.claimed == pb.claimed == db.claimed + {b.key, p.key}
            && var h, k := Holder(db, b.reference), AddressHolder(db, p.reference);
            if b.key !in db.claimed && p.key !in db.claimed && h.Some? && k == h then
              && bp.rows == db.rows[h.value :=
                    AddressRow(BaselineRow(db.rows[h.value], b.providerStatus, b.at, OutcomeOf(b)), p.providerStatus,
                        p.at, AddressOutcomeOf(p))]
              && pb.rows == db.rows[h.value :=
                    BaselineRow(AddressRow(db.rows[h.value], p.providerStatus, p.at, AddressOutcomeOf(p)),
                        b.providerStatus, b.at, OutcomeOf(b))]
            else bp.rows == pb.rows
  {
    hide Do, OutcomeOf, AddressOutcomeOf, BaselineRow, AddressRow, Holder, AddressHolder, Unique;
    HoldersKept(db, b, p.reference);
    HoldersKept(db, p, b.reference);
    OutcomeRows(db, b);
    OutcomeRows(Do(db, p).0, b);
    AddressOutcomeRows(db, p);
    AddressOutcomeRows(Do(db, b).0, p);
  }

  /** A baseline event and an address event leave the same table in either order, except in the one clash. */
  lemma StreamsCommuteIff(db: Db, b: Step, p: Step)
    requires Unique(db) && b.OutcomeStep? && p.AddressOutcomeStep? && b.key != p.key
    ensures var bp, pb := Do(Do(db, b).0, p).0, Do(Do(db, p).0, b).0;
            bp.claimed == pb.claimed && (bp.rows == pb.rows <==> !Clash(db, b, p))
  {
    hide Do, OutcomeOf, AddressOutcomeOf, BaselineRow, AddressRow, Holder, AddressHolder, Unique, IsStale;
    BothOrders(db, b, p);
    var h := Holder(db, b.reference);
    if b.key !in db.claimed && p.key !in db.claimed && h.Some? && AddressHolder(db, p.reference) == h {
      RowsCommuteIff(db.rows[h.value], b, p);
      var bp, pb := Do(Do(db, b).0, p).0, Do(Do(db, p).0, b).0;
      assert bp.rows == pb.rows <==> bp.rows[h.value] == pb.rows[h.value];
    }
  }

  // ---- Each stream converges ----

  datatype Payload =
    | BaselineValue(state: EligibilityState, substatus: Substatus)
    | AddressValue(status: AddressStatus, currentUntil: Option<int>)

  /** The columns one stream owns: what the provider last said, when, and what it means. */
  datatype Columns = Columns(status: Option<DiditStatus>, at: Option<int>, value: Payload)

  function Settle(kind: Kind, row: Row): Columns {
    match kind
    case BaselineSession =>
      Columns(row.baseline.providerStatus, row.baseline.providerUpdatedAt,
              BaselineValue(row.baseline.state, if row.baseline.state.Eligible? then VerifiedOwnerPoaMissing
                  else row.baseline.substatus))
    case AddressSession =>
      Columns(row.address.providerStatus, row.address.providerUpdatedAt,
          AddressValue(row.address.status, row.address.currentUntil))
  }

  predicate IsOf(kind: Kind, s: Step) {
    if kind.BaselineSession? then s.OutcomeStep? else s.AddressOutcomeStep?
  }

  function ValueOf(s: Step): Columns
    requires s.OutcomeStep? || s.AddressOutcomeStep?
  {
    Columns(s.providerStatus, Some(s.at),
            if s.OutcomeStep? then BaselineValue(OutcomeOf(s).state, OutcomeOf(s).substatus)
            else AddressValue(AddressOutcomeOf(s).status, AddressOutcomeOf(s).currentUntil))
  }

  /** A delivery correlated with one of the row's two hosted sessions, judged by the countries the row declares. */
  predicate FromSession(row: Row, s: Step): (r: bool)
    ensures r ==> s.OutcomeStep? || s.AddressOutcomeStep?
  {
    || (s.OutcomeStep? && row.baseline.reference == Some(s.reference) && s.readResidence == row.residence
          && s.readTax == row.tax)
    || (s.AddressOutcomeStep? && row.address.reference == Some(s.reference) && s.readResidence == row.residence)
  }

  predicate SameEvent(s: Step, t: Step) {
    || (s.OutcomeStep? && t.OutcomeStep? && s.key == t.key && s.providerStatus == t.providerStatus
          && s.decision == t.decision && s.at == t.at)
    || (s.AddressOutcomeStep? && t.AddressOutcomeStep? && s.key == t.key && s.providerStatus == t.providerStatus
          && s.decision == t.decision && s.at == t.at)
  }

  /** A transaction that belongs to other accounts: it does not name this one, nor a session of its row. */
  predicate IsBystander(row: Row, account: Id, s: Step) {
    match s
    case OutcomeStep(_, reference, _, _, _, _, _, _) => row.baseline.reference != Some(reference)
    case AddressOutcomeStep(_, reference, _, _, _, _) => row.address.reference != Some(reference)
    case UnmatchedStep(_) => true
    case _ => s.account != account
  }

  predicate ClaimsKey(s: Step, key: EventKey) {
    (s.OutcomeStep? || s.AddressOutcomeStep? || s.UnmatchedStep?) && s.key == key
  }

  predicate IsProviderKey(key: EventKey) { key.WebhookKey? || key.ReconciliationKey? }

  /**
   * Deliveries of one account among any transactions of others: a new event has a new key, and
   * whatever carries an event's key is that event again.
   */
  ghost predicate Deliveries(db: Db, account: Id, steps: seq<Step>): (r: bool)
    ensures r ==> account in db.rows
  {
    && account in db.rows
    && (forall s :: s in steps ==> FromSession(db.rows[account], s) || IsBystander(db.rows[account], account, s))
    && (forall s :: s in steps && FromSession(db.rows[account], s) ==> IsProviderKey(s.key) && s.key !in db.claimed)
    && (forall s, t :: s in steps && t in steps && FromSession(db.rows[account], s) && ClaimsKey(t, s.key) ==>
          FromSession(db.rows[account], t) && SameEvent(s, t))
  }

  /** The deliveries of a row's own sessions, in their order. */
  function Ours(row: Row, steps: seq<Step>): (r: seq<Step>)
    ensures forall s :: s in r <==> s in steps && FromSession(row, s)
  {
    if steps == [] then []
    else
      assert steps == Front(steps) + [Last(steps)];
      Ours(row, Front(steps)) + if FromSession(row, Last(steps)) then [Last(steps)] else []
  }

  lemma OursOf(row: Row, front: seq<Step>, e: Step)
    ensures Ours(row, front + [e]) == if FromSession(row, e) then Ours(row, front) + [e] else Ours(row, front)
  {
    hide FromSession;
    assert Front(front + [e]) == front && Last(front + [e]) == e;
  }

  lemma BystanderStep(db: Db, s: Step, account: Id)
    requires Inv(db) && account in db.rows && IsBystander(db.rows[account], account, s)
    ensures account in Do(db, s).0.rows && Do(db, s).0.rows[account] == db.rows[account]
  {
    hide Evaluate, EvaluateAddress, BaselineRow, AddressRow, RowOk, Unique;
  }

  lemma ClaimsOnly(db: Db, s: Step, key: EventKey)
    requires IsProviderKey(key)
    ensures key in Do(db, s).0.claimed <==> key in db.claimed || ClaimsKey(s, key)
  {
    hide Evaluate, EvaluateAddress, BaselineRow, AddressRow;
  }

  lemma ColumnStep(kind: Kind, db: Db, s: Step, account: Id)
    requires Unique(db) && account in db.rows && FromSession(db.rows[account], s)
    ensures var next := Do(db, s).0;
            && account in next.rows && next.claimed == db.claimed + {s.key} && Unique(next)
            && (forall t :: FromSession(db.rows[account], t) == FromSession(next.rows[account], t))
            && Settle(kind, next.rows[account]) ==
               if IsOf(kind, s) && s.key !in db.claimed
                   && !IsStale(Settle(kind, db.rows[account]).at, s.at) then ValueOf(s)
               else Settle(kind, db.rows[account])
  {
    hide EvaluateStatus, ApprovedOutcome, Do, Holder, AddressHolder, Unique;
    SameReferences(db, s);
    if s.OutcomeStep? {
      OutcomeRows(db, s);
      HolderIs(db, s.reference, account);
    } else {
      AddressOutcomeRows(db, s);
      AddressHolderIs(db, s.reference, account);
    }
  }

  ghost predicate IsNewest(kind: Kind, start: Columns, steps: seq<Step>, s: Step) {
    && s in steps && IsOf(kind, s) && !IsStale(start.at, s.at)
    && forall t :: t in steps && IsOf(kind, t) ==> t.at <= s.at
  }

  /** The stream's columns are those of the newest among its events and the session start. */
  ghost predicate Converged(kind: Kind, start: Columns, columns: Columns, steps: seq<Step>) {
    || (columns == start && forall s :: s in steps && IsOf(kind, s) ==> IsStale(start.at, s.at))
    || exists s :: IsNewest(kind, start, steps, s) && columns == ValueOf(s)
  }

  lemma ConvergedStep(kind: Kind, start: Columns, columns: Columns, steps: seq<Step>, e: Step, seen: bool)
    requires Converged(kind, start, columns, steps)
    requires seen ==> exists t :: t in steps && SameEvent(t, e)
    ensures Converged(kind, start,
                      if IsOf(kind, e) && !seen && !IsStale(columns.at, e.at) then ValueOf(e) else columns, steps + [e])
  {
    hide OutcomeOf, AddressOutcomeOf;
    var all := steps + [e];
    assert forall s :: s in all <==> s in steps || s == e;
    if seen { var t :| t in steps && SameEvent(t, e); }
    var next := if IsOf(kind, e) && !seen && !IsStale(columns.at, e.at) then ValueOf(e) else columns;
    if columns == start && forall s :: s in steps && IsOf(kind, s) ==> IsStale(start.at, s.at) {
      if next != start { assert IsNewest(kind, start, all, e); }
    } else {
      var s :| IsNewest(kind, start, steps, s) && columns == ValueOf(s);
      if IsOf(kind, e) && !seen && !IsStale(columns.at, e.at) {
        assert IsNewest(kind, start, all, e);
      } else {
        assert IsNewest(kind, start, all, s);
      }
    }
  }

  ghost predicate HasKey(steps: seq<Step>, key: EventKey) { exists t :: t in steps && ClaimsKey(t, key) }

  lemma HasKeyOf(steps: seq<Step>, e: Step, key: EventKey)
    ensures HasKey(steps + [e], key) <==> HasKey(steps, key) || ClaimsKey(e, key)
  {
    hide ClaimsKey;
    if HasKey(steps, key) {
      var t :| t in steps && ClaimsKey(t, key);
      assert t in steps + [e];
    }
    if ClaimsKey(e, key) { assert e in steps + [e]; }
  }

  // The key of a new event is claimed exactly when that event was delivered before.
  lemma {:induction false} ClaimedIff(db: Db, account: Id, steps: seq<Step>, key: EventKey)
    requires account in db.rows && IsProviderKey(key) && key !in db.claimed
    requires forall t :: t in steps && ClaimsKey(t, key) ==> FromSession(db.rows[account], t)
    ensures key in After(db, steps).claimed <==> HasKey(Ours(db.rows[account], steps), key)
  {
    hide Do, FromSession, Ours, ClaimsKey, HasKey;
    if steps == [] {
      NoneOurs(db.rows[account], steps);
      NoKeys(key);
    } else {
      var front, e := Front(steps), Last(steps);
      assert steps == front + [e] && e in steps && forall t :: t in front ==> t in steps;
      ClaimedIff(db, account, front, key);
      ClaimsOnly(After(db, front), e, key);
      OursOf(db.rows[account], front, e);
      HasKeyOf(Ours(db.rows[account], front), e, key);
    }
  }

  lemma NoKeys(key: EventKey)
    ensures !HasKey([], key)
  {
  }

  // One more delivery, seen by one stream of the account.
  lemma DeliveredStep(kind: Kind, start: Columns, mid: Db, account: Id, ours: seq<Step>, e: Step)
    requires Unique(mid) && account in mid.rows && FromSession(mid.rows[account], e)
    requires e.key in mid.claimed <==> exists t :: t in ours && SameEvent(t, e)
    requires Converged(kind, start, Settle(kind, mid.rows[account]), ours)
    ensures var next := Do(mid, e).0;
            && account in next.rows && SameSession(mid.rows[account], next.rows[account])
            && Converged(kind, start, Settle(kind, next.rows[account]), ours + [e])
  {
    hide Do, Settle, ValueOf, Converged, Unique, IsStale, FromSession, SameEvent;
    ColumnStep(kind, mid, e, account);
    SameReferences(mid, e);
    ConvergedStep(kind, start, Settle(kind, mid.rows[account]), ours, e, e.key in mid.claimed);
  }

  /** Equal in what decides whose a step is: the references and countries of the row. */
  predicate SameSession(a: Row, b: Row) {
    && a.baseline.reference == b.baseline.reference && a.address.reference == b.address.reference
    && a.residence == b.residence && a.tax == b.tax
  }

  lemma SameSessions(a: Row, b: Row, account: Id)
    requires SameSession(a, b)
    ensures forall t :: FromSession(a, t) == FromSession(b, t)
    ensures forall t :: IsBystander(a, account, t) == IsBystander(b, account, t)
  {
  }

  /**
   * In any order, with any repeats and among any transactions of other accounts, each stream ends
   * at one of its newest events, or at the session start if that is newer.
   */
  lemma {:induction false} EveryOrderConverges(kind: Kind, db: Db, account: Id, steps: seq<Step>)
    requires Inv(db) && Deliveries(db, account, steps)
    ensures var last := After(db, steps);
            && account in last.rows && Inv(last) && SameSession(db.rows[account], last.rows[account])
            && Converged(kind, Settle(kind, db.rows[account]), Settle(kind, last.rows[account]),
                  Ours(db.rows[account], steps))
  {
    hide Do, Settle, Converged, Unique, FromSession, Inv, IsBystander, SameEvent, Ours, Deliveries;
    var row := db.rows[account];
    if steps == [] {
      NoneOurs(row, steps);
      NothingDelivered(kind, Settle(kind, row));
    } else {
      var front, e := Front(steps), Last(steps);
      assert steps == front + [e];
      FewerDeliveries(db, account, front, e);
      EveryOrderConverges(kind, db, account, front);
      var mid := After(db, front);
      SameSessions(row, mid.rows[account], account);
      InvKept(mid, e);
      OursOf(row, front, e);
      if FromSession(row, e) {
        UniqueOfInv(mid);
        ClaimedBefore(db, account, front, e);
        DeliveredStep(kind, Settle(kind, row), mid, account, Ours(row, front), e);
      } else {
        BystanderStep(mid, e, account);
      }
    }
  }

  lemma FewerDeliveries(db: Db, account: Id, front: seq<Step>, e: Step)
    requires Deliveries(db, account, front + [e])
    ensures Deliveries(db, account, front)
    ensures FromSession(db.rows[account], e) || IsBystander(db.rows[account], account, e)
  {
    hide FromSession, IsBystander, SameEvent;
    assert e in front + [e] && forall s :: s in front ==> s in front + [e];
  }

  // The key of a delivery is claimed exactly when the same event was delivered before.
  lemma ClaimedBefore(db: Db, account: Id, front: seq<Step>, e: Step)
    requires Deliveries(db, account, front + [e]) && FromSession(db.rows[account], e)
    ensures e.key in After(db, front).claimed <==> exists t :: t in Ours(db.rows[account], front) && SameEvent(t, e)
  {
    hide FromSession, IsBystander, After;
    var row, steps := db.rows[account], front + [e];
    assert e in steps && forall s :: s in front ==> s in steps;
    ClaimedIff(db, account, front, e.key);
    forall t | t in Ours(row, front) && ClaimsKey(t, e.key) ensures SameEvent(t, e) {
      assert t in steps && ClaimsKey(e, t.key);
    }
  }

  lemma NoneOurs(row: Row, steps: seq<Step>)
    requires steps == []
    ensures Ours(row, steps) == []
  {
  }

  lemma NothingDelivered(kind: Kind, start: Columns)
    ensures Converged(kind, start, start, [])
  {
  }

  ghost predicate Has(steps: seq<Step>, s: Step) {
    exists t :: t in steps && SameEvent(s, t)
  }

  ghost predicate SameEvents(xs: seq<Step>, ys: seq<Step>) {
    (forall s :: s in xs ==> Has(ys, s)) && (forall t :: t in ys ==> Has(xs, t))
  }

  lemma Pick(steps: seq<Step>, s: Step) returns (t: Step)
    requires Has(steps, s)
    ensures t in steps && SameEvent(s, t)
  {
    t :| t in steps && SameEvent(s, t);
  }

  // Two deliveries of one event to one row mean the same, whatever flag each had read.
  lemma SameEventSameValue(row: Row, s: Step, t: Step)
    requires FromSession(row, s) && FromSession(row, t) && SameEvent(s, t)
    ensures ValueOf(s) == ValueOf(t)
  {
    hide EvaluateStatus, ApprovedOutcome;
    if s.OutcomeStep? {
      FlagOnlyMovesRenewal(s.providerStatus, s.decision, row.residence, row.tax, s.at, s.readReviewed, t.readReviewed);
    }
  }

  lemma NewestCarriesOver(kind: Kind, start: Columns, xs: seq<Step>, ys: seq<Step>, s: Step) returns (t: Step)
    requires SameEvents(xs, ys) && IsNewest(kind, start, xs, s)
    ensures SameEvent(s, t) && IsNewest(kind, start, ys, t)
  {
    hide Has;
    t := Pick(ys, s);
    forall y | y in ys && IsOf(kind, y) ensures y.at <= t.at {
      var x := Pick(xs, y);
    }
  }

  /** Two events of one stream differ in time. */
  ghost predicate TimesDiffer(ours: seq<Step>) {
    forall kind, s, t :: s in ours && t in ours && IsOf(kind, s) && IsOf(kind, t) && s.at == t.at ==> SameEvent(s, t)
  }

  lemma SameNewest(kind: Kind, row: Row, xs: seq<Step>, ys: seq<Step>, cx: Columns, cy: Columns)
    requires SameEvents(xs, ys)
    requires forall s :: s in xs || s in ys ==> FromSession(row, s)
    requires TimesDiffer(ys)
    requires Converged(kind, Settle(kind, row), cx, xs) && Converged(kind, Settle(kind, row), cy, ys)
    ensures cx == cy
  {
    hide ValueOf, Settle, FromSession, Has, SameEvent;
    var start := Settle(kind, row);
    if exists s :: IsNewest(kind, start, xs, s) && cx == ValueOf(s) {
      var s :| IsNewest(kind, start, xs, s) && cx == ValueOf(s);
      var t := NewestCarriesOver(kind, start, xs, ys, s);
      SameEventSameValue(row, s, t);
      assert !IsStale(start.at, t.at);
      var u :| IsNewest(kind, start, ys, u) && cy == ValueOf(u);
      SameEventSameValue(row, t, u);
    } else if exists u :: IsNewest(kind, start, ys, u) && cy == ValueOf(u) {
      var u :| IsNewest(kind, start, ys, u) && cy == ValueOf(u);
      assert SameEvents(ys, xs);
      var v := NewestCarriesOver(kind, start, ys, xs, u);
      SameEventSameValue(row, u, v);
    }
  }

  /** Two runs that deliver the same events, none at the same time as another, agree on both streams. */
  lemma OrderAndRepeatsDoNotMatter(kind: Kind, db: Db, account: Id, xs: seq<Step>, ys: seq<Step>)
    requires Inv(db) && Deliveries(db, account, xs) && Deliveries(db, account, ys)
    requires SameEvents(Ours(db.rows[account], xs), Ours(db.rows[account], ys))
              && TimesDiffer(Ours(db.rows[account], ys))
    ensures account in After(db, xs).rows && account in After(db, ys).rows
    ensures Settle(kind, After(db, xs).rows[account]) == Settle(kind, After(db, ys).rows[account])
  {
    hide After, Settle, Converged, SameEvents, FromSession, SameEvent, Inv;
    EveryOrderConverges(kind, db, account, xs);
    EveryOrderConverges(kind, db, account, ys);
    SameNewest(kind, db.rows[account], Ours(db.rows[account], xs), Ours(db.rows[account], ys),
               Settle(kind, After(db, xs).rows[account]), Settle(kind, After(db, ys).rows[account]));
  }

  // ---- The shown substatus converges too, while the evidence lasts ----

  /** An eligible row shows whether its address evidence is current. */
  predicate Aligned(row: Row) {
    row.baseline.state.Eligible? ==>
      row.baseline.substatus == if row.address.status.Current? then Verified else VerifiedOwnerPoaMissing
  }

  predicate Outlives(status: AddressStatus, until: Option<int>, at: int) {
    status.Current? ==> until.Some? && until.value > at
  }

  /** Address evidence that is, or becomes, current ends after every baseline event delivered. */
  ghost predicate EvidenceLasts(row: Row, steps: seq<Step>) {
    forall b :: b in steps && b.OutcomeStep? ==>
      && Outlives(row.address.status, row.address.currentUntil, b.at)
      && forall p :: p in steps && p.AddressOutcomeStep? ==>
            Outlives(AddressOutcomeOf(p).status, AddressOutcomeOf(p).currentUntil, b.at)
  }

  lemma AlignedStep(db: Db, s: Step, account: Id, at: int)
    requires Unique(db) && account in db.rows && FromSession(db.rows[account], s) && Aligned(db.rows[account])
    requires s.OutcomeStep? ==> Outlives(db.rows[account].address.status, db.rows[account].address.currentUntil, s.at)
    ensures account in Do(db, s).0.rows && Aligned(Do(db, s).0.rows[account])
    ensures var row, next := db.rows[account], Do(db, s).0.rows[account];
            Outlives(row.address.status, row.address.currentUntil, at)
            && (s.AddressOutcomeStep? ==> Outlives(AddressOutcomeOf(s).status, AddressOutcomeOf(s).currentUntil, at))
            ==> Outlives(next.address.status, next.address.currentUntil, at)
  {
    hide EvaluateStatus, ApprovedOutcome, Do, Holder, AddressHolder, Unique;
    if s.OutcomeStep? {
      OutcomeRows(db, s);
      HolderIs(db, s.reference, account);
    } else {
      AddressOutcomeRows(db, s);
      AddressHolderIs(db, s.reference, account);
    }
  }

  lemma {:induction false} StaysAligned(db: Db, account: Id, steps: seq<Step>, all: seq<Step>)
    requires Inv(db) && Deliveries(db, account, steps) && Aligned(db.rows[account])
    requires Ours(db.rows[account], steps) <= all && EvidenceLasts(db.rows[account], all)
    ensures var last := After(db, steps);
            && account in last.rows && Aligned(last.rows[account])
            && forall b :: b in all && b.OutcomeStep? ==>
                  Outlives(last.rows[account].address.status, last.rows[account].address.currentUntil, b.at)
    decreases |steps|
  {
    hide Do, Outlives, FromSession, IsBystander, Aligned, Inv, AddressOutcomeOf, Deliveries, Ours;
    if steps != [] {
      var row, front, e := db.rows[account], Front(steps), Last(steps);
      assert steps == front + [e];
      FewerDeliveries(db, account, front, e);
      OursOf(row, front, e);
      assert Ours(row, front) <= Ours(row, steps);
      StaysAligned(db, account, front, all);
      EveryOrderConverges(BaselineSession, db, account, front);
      var mid := After(db, front);
      SameSessions(row, mid.rows[account], account);
      if FromSession(row, e) {
        assert Ours(row, steps)[|Ours(row, front)|] == e;
        assert e in all;
        AlignedDelivery(mid, e, account, all);
      } else {
        BystanderStep(mid, e, account);
      }
    }
  }

  lemma AlignedDelivery(mid: Db, e: Step, account: Id, all: seq<Step>)
    requires Inv(mid) && account in mid.rows && FromSession(mid.rows[account], e) && Aligned(mid.rows[account])
              && e in all
    requires forall b :: b in all && b.OutcomeStep? ==>
              Outlives(mid.rows[account].address.status, mid.rows[account].address.currentUntil, b.at)
    requires forall b, p :: b in all && b.OutcomeStep? && p in all && p.AddressOutcomeStep? ==>
               Outlives(AddressOutcomeOf(p).status, AddressOutcomeOf(p).currentUntil, b.at)
    ensures var next := Do(mid, e).0;
            && account in next.rows && Aligned(next.rows[account])
            && forall b :: b in all && b.OutcomeStep? ==>
                  Outlives(next.rows[account].address.status, next.rows[account].address.currentUntil, b.at)
  {
    hide Do, Outlives, FromSession, Aligned, Inv, AddressOutcomeOf;
    UniqueOfInv(mid);
    AlignedStep(mid, e, account, 0);
    forall b | b in all && b.OutcomeStep?
      ensures Outlives(Do(mid, e).0.rows[account].address.status, Do(mid, e).0.rows[account].address.currentUntil, b.at)
    {
      AlignedStep(mid, e, account, b.at);
    }
  }

  /** While the address evidence lasts, the substatus shown does not depend on order or repeats either. */
  lemma SubstatusConverges(db: Db, account: Id, xs: seq<Step>, ys: seq<Step>)
    requires Inv(db) && Deliveries(db, account, xs) && Deliveries(db, account, ys) && Aligned(db.rows[account])
    requires var row := db.rows[account];
             && SameEvents(Ours(row, xs), Ours(row, ys)) && TimesDiffer(Ours(row, ys))
             && EvidenceLasts(row, Ours(row, xs)) && EvidenceLasts(row, Ours(row, ys))
    ensures account in After(db, xs).rows && account in After(db, ys).rows
    ensures After(db, xs).rows[account].baseline.substatus == After(db, ys).rows[account].baseline.substatus
  {
    hide After, SameEvents, FromSession, Deliveries, EvidenceLasts, TimesDiffer, Inv, Ours;
    OrderAndRepeatsDoNotMatter(BaselineSession, db, account, xs, ys);
    OrderAndRepeatsDoNotMatter(AddressSession, db, account, xs, ys);
    StaysAligned(db, account, xs, Ours(db.rows[account], xs));
    StaysAligned(db, account, ys, Ours(db.rows[account], ys));
  }
}
