/**
 * One enrolment challenge on the database clock: it is consumed once, the enrolment that holds it
 * may register a device in a short transaction, and replays are told whether that is over.
 */
module ChallengeReplay {
  import opened Base

  /** The replay window, the insert deadline, and how long a transaction stays open after its deadline check. */
  datatype Limits = Limits(window: nat, deadline: nat, bound: nat)

  const LIMITS := Limits(120_000, 60_000, 10_000)

  datatype Challenge = Challenge(expiresAt: int, consumedAt: Option<int>)

  /** How far the enrolment that consumed the challenge has come. */
  datatype Holder =
    | Nobody
    | Working(consumedAt: int)
    | Checked(consumedAt: int, checkedAt: int)
    | Committed
    | GaveUp

  datatype Answer = Replayed | AlreadyEnrolled | Expired

  /** A request whose consume was refused: it asks for the window, then for a device. */
  datatype Replay = Refused | Late | Answered(answer: Answer)

  /** `device` is the holder's device, `other` any other device of the key or the account. */
  datatype World = World(clock: int, row: Option<Challenge>, holder: Holder, device: bool, other: bool,
      replays: map<nat, Replay>)

  datatype Step =
    | Tick(d: nat)
    | Consume(r: nat)
    | Check
    | Commit
    | GiveUp
    | Rollback
    | Others(present: bool)
    | Prune
    | Ask(r: nat)
    | Query(r: nat)

  predicate CanConsume(w: World) {
    w.row.Some? && w.row.value.consumedAt.None? && w.row.value.expiresAt > w.clock
  }

  predicate IsFresh(l: Limits, w: World) {
    w.row.Some? && w.row.value.consumedAt.Some? && w.row.value.consumedAt.value > w.clock - l.deadline
  }

  predicate WasConsumedWithinReplayWindow(l: Limits, w: World) {
    w.row.Some? && w.row.value.consumedAt.Some? && w.row.value.consumedAt.value >= w.clock - l.window
  }

  function Next(l: Limits, w: World, s: Step): World {
    match s
    case Tick(d) => w.(clock := w.clock + d)
    case Consume(r) =>
      if r in w.replays then w
      else if CanConsume(w) then w.(row := Some(w.row.value.(consumedAt := Some(w.clock))), holder := Working(w.clock))
      else w.(replays := w.replays[r := Refused])
    case Check =>
      if !w.holder.Working? then w
      else w.(holder := if IsFresh(l, w) then Checked(w.holder.consumedAt, w.clock) else GaveUp)
    case Commit =>
      if w.holder.Checked? && w.clock - w.holder.checkedAt <= l.bound then w.(holder := Committed, device := true)
          else w
    case GiveUp =>
      if w.holder.Working? || w.holder.Checked? then w.(holder := GaveUp) else w
    case Rollback => w.(device := false)
    case Others(present) => w.(other := present)
    case Prune =>
      if w.row.Some? && w.row.value.expiresAt < w.clock - l.window && !w.holder.Checked? then w.(row := None) else w
    case Ask(r) =>
      if r in w.replays && w.replays[r].Refused?
      then w.(replays := w.replays[r := if WasConsumedWithinReplayWindow(l, w) then Answered(Replayed) else Late])
      else w
    case Query(r) =>
      if r in w.replays && w.replays[r].Late?
      then w.(replays := w.replays[r := Answered(if w.device || w.other then AlreadyEnrolled else Expired)])
      else w
  }

  function After(l: Limits, w: World, steps: seq<Step>): World
    decreases |steps|
  {
    if steps == [] then w else After(l, Next(l, w, steps[0]), steps[1..])
  }

  /** Before the run the challenge, if it was ever issued, is unused. */
  function Start(clock: int, expiresAt: Option<int>, other: bool): World {
    World(clock, if expiresAt.None? then None else Some(Challenge(expiresAt.value, None)), Nobody, false, other, map[])
  }

  // ---- What every reachable world satisfies ----

  predicate HolderOk(l: Limits, w: World) {
    match w.holder
    case Nobody => w.row.Some? ==> w.row.value.consumedAt.None?
    case Working(a) => a <= w.clock && if w.row.Some? then w.row.value.consumedAt == Some(a) else a + l.window < w.clock
    case Checked(a, c) => a <= c <= w.clock && c < a + l.deadline && w.row.Some? && w.row.value.consumedAt == Some(a)
    case _ => w.row.Some? ==> w.row.value.consumedAt.Some?
  }

  predicate RowOk(w: World) {
    w.row.Some? && w.row.value.consumedAt.Some? ==> w.row.value.consumedAt.value < w.row.value.expiresAt
  }

  // Nobody will consume the challenge any more.
  predicate IsUsedUp(w: World) {
    w.holder.Nobody? ==> w.row.None? || w.row.value.expiresAt <= w.clock
  }

  /** The challenge is used up, and its holder, if there is one, consumed it before the window. */
  predicate IsClosed(l: Limits, w: World) {
    IsUsedUp(w) && (w.holder.Working? || w.holder.Checked? ==> w.holder.consumedAt + l.window < w.clock)
  }

  ghost predicate Inv(l: Limits, w: World) {
    && HolderOk(l, w) && RowOk(w)
    && (forall r :: r in w.replays ==> IsUsedUp(w))
    && (forall r :: r in w.replays && (w.replays[r].Late? || w.replays[r] == Answered(Expired)) ==> IsClosed(l, w))
  }

  lemma StepKeepsInv(l: Limits, w: World, s: Step)
    requires Inv(l, w)
    ensures Inv(l, Next(l, w, s))
  {
  }

  lemma {:induction false} RunKeepsInv(l: Limits, w: World, steps: seq<Step>)
    requires Inv(l, w)
    ensures Inv(l, After(l, w, steps))
    decreases |steps|
  {
    hide Inv, Next;
    if steps != [] {
      StepKeepsInv(l, w, steps[0]);
      RunKeepsInv(l, Next(l, w, steps[0]), steps[1..]);
    }
  }

  // ---- Safety ----

  /** The transaction is over before the window is. */
  predicate FitsWindow(l: Limits) { l.deadline == 0 || l.deadline + l.bound <= l.window + 1 }

  // Once closed, a challenge stays closed and its holder never commits.
  lemma ClosedStep(l: Limits, w: World, s: Step)
    requires FitsWindow(l) && Inv(l, w) && IsClosed(l, w)
    ensures IsClosed(l, Next(l, w, s))
    ensures Next(l, w, s).holder.Committed? ==> w.holder.Committed?
    ensures Next(l, w, s).device ==> w.device
  {
  }

  lemma {:induction false} ClosedRun(l: Limits, w: World, steps: seq<Step>)
    requires FitsWindow(l) && Inv(l, w) && IsClosed(l, w)
    ensures IsClosed(l, After(l, w, steps))
    ensures After(l, w, steps).holder.Committed? ==> w.holder.Committed?
    ensures After(l, w, steps).device ==> w.device
    decreases |steps|
  {
    hide Inv, Next, IsClosed, FitsWindow;
    if steps != [] {
      StepKeepsInv(l, w, steps[0]);
      ClosedStep(l, w, steps[0]);
      ClosedRun(l, Next(l, w, steps[0]), steps[1..]);
    }
  }

  ghost predicate SaidExpired(w: World) { exists r :: r in w.replays && w.replays[r] == Answered(Expired) }

  /**
   * A replay was told EXPIRED after the first run, and in the second the enrolment registers its
   * device all the same.
   */
  ghost predicate Betrayed(l: Limits, start: World, xs: seq<Step>, ys: seq<Step>) {
    var w := After(l, start, xs);
    SaidExpired(w) && !w.holder.Committed? && After(l, w, ys).holder.Committed?
  }

  ghost predicate IsSafe(l: Limits) {
    forall clock, expiresAt, other, xs, ys :: !Betrayed(l, Start(clock, expiresAt, other), xs, ys)
  }

  lemma NeverBetrayed(l: Limits, clock: int, expiresAt: Option<int>, other: bool, xs: seq<Step>, ys: seq<Step>)
    requires FitsWindow(l)
    ensures !Betrayed(l, Start(clock, expiresAt, other), xs, ys)
  {
    hide After, FitsWindow, IsClosed;
    var start := Start(clock, expiresAt, other);
    var w := After(l, start, xs);
    RunKeepsInv(l, start, xs);
    if SaidExpired(w) { ClosedRun(l, w, ys); }
  }

  // A check at the last moment, a replay past the window, and a commit just after it.
  lemma SlowCommit(l: Limits)
    requires !FitsWindow(l)
    ensures exists xs, ys :: Betrayed(l, Start(0, Some(1), false), xs, ys)
  {
    hide After;
    var d := l.deadline - 1;
    var t := if l.window + 1 > d then l.window + 1 - d else 0;
    var xs := [Consume(0), Tick(d), Check, Tick(t), Consume(1), Ask(1), Query(1)];
    var w := World(d + t, Some(Challenge(1, Some(0))), Checked(0, d), false, false, map[1 := Answered(Expired)]);
    SlowReplay(l, d, t);
    assert w.replays[1] == Answered(Expired);
    AfterCons(l, w, [Commit], w.(holder := Committed, device := true));
    AfterNil(l, w.(holder := Committed, device := true));
    assert [Commit][1..] == [];
    assert Betrayed(l, Start(0, Some(1), false), xs, [Commit]);
  }

  lemma SlowReplay(l: Limits, d: nat, t: nat)
    requires d < l.deadline && l.window < d + t
    ensures After(l, Start(0, Some(1), false), [Consume(0), Tick(d), Check, Tick(t), Consume(1), Ask(1), Query(1)]) ==
            World(d + t, Some(Challenge(1, Some(0))), Checked(0, d), false, false, map[1 := Answered(Expired)])
  {
    hide After;
    var xs := [Consume(0), Tick(d), Check, Tick(t), Consume(1), Ask(1), Query(1)];
    var w1 := World(0, Some(Challenge(1, Some(0))), Working(0), false, false, map[]);
    var w2 := w1.(clock := d);
    var w3 := w2.(holder := Checked(0, d));
    var w4 := w3.(clock := d + t);
    var w5 := w4.(replays := map[1 := Refused]);
    var w6 := w4.(replays := map[1 := Late]);
    var w7 := w4.(replays := map[1 := Answered(Expired)]);
    AfterCons(l, Start(0, Some(1), false), xs, w1);
    AfterCons(l, w1, xs[1..], w2);
    AfterCons(l, w2, xs[2..], w3);
    AfterCons(l, w3, xs[3..], w4);
    AfterCons(l, w4, xs[4..], w5);
    AfterCons(l, w5, xs[5..], w6);
    AfterCons(l, w6, xs[6..], w7);
    assert xs[6..][1..] == [];
    AfterNil(l, w7);
  }

  lemma AfterCons(l: Limits, w: World, steps: seq<Step>, v: World)
    requires steps != [] && Next(l, w, steps[0]) == v
    ensures After(l, w, steps) == After(l, v, steps[1..])
  {
  }

  /** EXPIRED is always final exactly when the deadline and the transaction together fit the replay window. */
  lemma SafeIff(l: Limits)
    ensures IsSafe(l) <==> FitsWindow(l)
  {
    hide FitsWindow, Betrayed, Start;
    if FitsWindow(l) {
      forall clock, expiresAt, other, xs, ys ensures !Betrayed(l, Start(clock, expiresAt, other), xs, ys) {
        NeverBetrayed(l, clock, expiresAt, other, xs, ys);
      }
    } else {
      SlowCommit(l);
    }
  }

  /** The limits in force are safe, and would be with transactions of up to a minute and a millisecond, not longer. */
  lemma LimitsAreSafe(bound: nat)
    ensures IsSafe(LIMITS)
    ensures IsSafe(LIMITS.(bound := bound)) <==> bound <= 60_001
  {
    hide IsSafe;
    SafeIff(LIMITS);
    SafeIff(LIMITS.(bound := bound));
  }

  ghost predicate IsOnRecord(l: Limits, w: World, expiresAt: int) {
    if w.row.None? then expiresAt + l.window < w.clock else w.row.value.expiresAt == expiresAt
  }

  lemma RecordStep(l: Limits, w: World, s: Step, expiresAt: int)
    requires IsOnRecord(l, w, expiresAt)
    ensures IsOnRecord(l, Next(l, w, s), expiresAt)
  {
  }

  lemma {:induction false} RecordRun(l: Limits, w: World, steps: seq<Step>, expiresAt: int)
    requires IsOnRecord(l, w, expiresAt)
    ensures IsOnRecord(l, After(l, w, steps), expiresAt)
    decreases |steps|
  {
    hide Next, IsOnRecord;
    if steps != [] {
      RecordStep(l, w, steps[0], expiresAt);
      RecordRun(l, Next(l, w, steps[0]), steps[1..], expiresAt);
    }
  }

  /** In every run an issued challenge stays on record, with its expiry, until the whole replay window after it. */
  lemma OnRecordThroughWindow(l: Limits, clock: int, expiresAt: int, other: bool, steps: seq<Step>)
    ensures var w := After(l, Start(clock, Some(expiresAt), other), steps);
            if w.clock <= expiresAt + l.window then w.row.Some? && w.row.value.expiresAt == expiresAt
            else w.row.Some? ==> w.row.value.expiresAt == expiresAt
  {
    hide After;
    RecordRun(l, Start(clock, Some(expiresAt), other), steps, expiresAt);
  }

  /**
   * While a checked transaction is open its challenge stays on record, so a replay never finds
   * neither row nor device.
   */
  lemma OpenTransactionKeepsRow(l: Limits, clock: int, expiresAt: Option<int>, other: bool, steps: seq<Step>)
    ensures var w := After(l, Start(clock, expiresAt, other), steps);
            w.holder.Checked? ==> w.row.Some? && w.row.value.consumedAt == Some(w.holder.consumedAt)
  {
    hide After;
    RunKeepsInv(l, Start(clock, expiresAt, other), steps);
  }

  // ---- Convergence ----

  /** Past the window, in every world a run can reach, a new replay is told EXPIRED exactly when there is no device. */
  lemma ReplayConverges(l: Limits, clock: int, expiresAt: Option<int>, other: bool, steps: seq<Step>, r: nat)
    requires var w := After(l, Start(clock, expiresAt, other), steps);
             && r !in w.replays && !CanConsume(w)
             && (w.row.Some? && w.row.value.consumedAt.Some? ==> w.row.value.consumedAt.value + l.window < w.clock)
    ensures var w := After(l, Start(clock, expiresAt, other), steps);
            var v := After(l, w, [Consume(r), Ask(r), Query(r)]);
            && IsClosed(l, w) && v.holder == w.holder
            && v.replays == w.replays[r := Answered(if w.device || w.other then AlreadyEnrolled else Expired)]
  {
    hide Inv;
    var w := After(l, Start(clock, expiresAt, other), steps);
    hide After;
    InvAtStart(l, clock, expiresAt, other);
    RunKeepsInv(l, Start(clock, expiresAt, other), steps);
    LateIsClosed(l, w);
    var w1 := w.(replays := w.replays[r := Refused]);
    var w2 := w.(replays := w.replays[r := Late]);
    var w3 := w.(replays := w.replays[r := Answered(if w.device || w.other then AlreadyEnrolled else Expired)]);
    var three := [Consume(r), Ask(r), Query(r)];
    AfterCons(l, w, three, w1);
    assert w1.replays[r := Late] == w2.replays;
    AfterCons(l, w1, three[1..], w2);
    assert w2.replays[r := w3.replays[r]] == w3.replays;
    AfterCons(l, w2, three[2..], w3);
    assert three[2..][1..] == [];
    AfterNil(l, w3);
  }

  lemma AfterNil(l: Limits, w: World)
    ensures After(l, w, []) == w
  {
  }

  lemma InvAtStart(l: Limits, clock: int, expiresAt: Option<int>, other: bool)
    ensures Inv(l, Start(clock, expiresAt, other))
  {
  }

  lemma LateIsClosed(l: Limits, w: World)
    requires Inv(l, w) && !CanConsume(w)
    requires w.row.Some? && w.row.value.consumedAt.Some? ==> w.row.value.consumedAt.value + l.window < w.clock
    ensures IsClosed(l, w)
  {
  }

  /** Within the window a replay is told REPLAYED, never EXPIRED. */
  lemma ReplayedWithinWindow(l: Limits, w: World, r: nat)
    requires r !in w.replays && w.row.Some? && w.row.value.consumedAt.Some?
              && w.row.value.consumedAt.value + l.window >= w.clock
    ensures After(l, w, [Consume(r), Ask(r), Query(r)]) == w.(replays := w.replays[r := Answered(Replayed)])
  {
    var w1 := w.(replays := w.replays[r := Refused]);
    var w2 := w.(replays := w.replays[r := Answered(Replayed)]);
    var three := [Consume(r), Ask(r), Query(r)];
    AfterCons(l, w, three, w1);
    assert w1.replays[r := Answered(Replayed)] == w2.replays;
    AfterCons(l, w1, three[1..], w2);
    AfterCons(l, w2, three[2..], w2);
    assert three[2..][1..] == [];
  }
}
