/**
 * The Idempotency-Key middleware and its store: requests that share a key and an endpoint
 * look the key up, run their handler and save its response in any interleaving.
 */
module Idempotency {
  import opened Base
  import opened StableJson

  // SHA-256 as an injective constructor: two digests are equal when the hashed texts are.
  datatype Digest = Sha256(text: Text)

  datatype Slot = Slot(key: Text, endpoint: Text)

  datatype Stored = Stored(hash: Digest, status: int, body: Json)

  function HashRequestBody(body: Json): Digest { Sha256(Stringify(body)) }

  // ---- The store ----

  datatype Saved = Kept(row: Stored) | Failed

  /** An insert takes effect when the database answers and the slot is free. */
  function Insert(rows: map<Slot, Stored>, slot: Slot, row: Stored, up: bool): map<Slot, Stored> {
    if up && slot !in rows then rows[slot := row] else rows
  }

  class Store {
    var rows: map<Slot, Stored>

    constructor ()
      ensures rows == map[]
    {
      rows := map[];
    }

    method Find(slot: Slot) returns (found: Option<Stored>)
      ensures found == if slot in rows then Some(rows[slot]) else None
    {
      found := None;
      if slot in rows { found := Some(rows[slot]); }
    }

    /** The first writer wins: whatever is saved, the row read back is the slot's first. */
    method Save(slot: Slot, row: Stored, createUp: bool, findUp: bool) returns (saved: Saved)
      modifies this
      ensures rows == Insert(old(rows), slot, row, createUp)
      ensures saved.Kept? <==> createUp && (findUp || slot !in old(rows))
      ensures saved.Kept? ==> slot in rows && saved.row == rows[slot]
    {
      if !createUp { return Failed; }
      if slot in rows {
        if !findUp { return Failed; }
        var existing := Find(slot);
        return Kept(existing.value);
      }
      rows := rows[slot := row];
      saved := Kept(row);
    }
  }

  // ---- Requests, interleaved ----

  datatype Request = Request(key: Option<Text>, endpoint: Text, body: Json)

  datatype Answer =
    | KeyRequired
    | Unavailable
    | Mismatch
    | Replayed(status: int, body: Json)
    | Own(status: int, body: Json)

  /** A request may be lost on the way, before its lookup or after its handler was started. */
  datatype Phase = Arrived | Handling | Saving(status: int, body: Json) | Done(answer: Answer) | Lost(handled: bool)

  /** The stored rows, the requests and how far each has come, and the requests whose handler was run. */
  datatype World = World(rows: map<Slot, Stored>, requests: map<nat, Request>, phases: map<nat, Phase>, ran: set<nat>)

  datatype Step =
    | Lookup(r: nat, up: bool)
    | Reply(r: nat, status: int, body: Json)
    | Save(r: nat, up: bool)
    | Lose(r: nat)

  /** The code units String.prototype.trim removes. */
  predicate IsSpace(u: Unit) {
    || 9 <= u <= 13 || u == 32 || u == 0xA0 || u == 0x1680 || 0x2000 <= u <= 0x200A
    || u == 0x2028 || u == 0x2029 || u == 0x202F || u == 0x205F || u == 0x3000 || u == 0xFEFF
  }

  predicate IsBlank(key: Option<Text>) {
    key.None? || forall i :: 0 <= i < |key.value| ==> IsSpace(key.value[i])
  }

  /** White space and line terminators as ECMAScript lists them. */
  lemma SpacesAre(u: Unit)
    ensures IsSpace(u) <==>
              || u in {0x9, 0xA, 0xB, 0xC, 0xD, 0x20, 0xA0, 0x1680, 0x2028, 0x2029, 0x202F, 0x205F, 0x3000, 0xFEFF}
              || u in {0x2000, 0x2001, 0x2002, 0x2003, 0x2004, 0x2005, 0x2006, 0x2007, 0x2008, 0x2009, 0x200A}
  {
  }

  function TrimStart(t: Text): Text { if t != [] && IsSpace(t[0]) then TrimStart(t[1..]) else t }

  function TrimEnd(t: Text): Text {
    if t != [] && IsSpace(t[|t| - 1]) then TrimEnd(t[..|t| - 1]) else t
  }

  /** A key is missing exactly when the header is absent or trimming it leaves nothing. */
  lemma BlankIff(key: Option<Text>)
    ensures IsBlank(key) <==> key == None || TrimEnd(TrimStart(key.value)) == []
  {
    hide IsSpace;
    if key.Some? {
      TrimStartIs(key.value);
      TrimEndIs(TrimStart(key.value));
    }
  }

  lemma {:induction false} TrimStartIs(t: Text)
    ensures TrimStart(t) == [] <==> forall i :: 0 <= i < |t| ==> IsSpace(t[i])
    ensures TrimStart(t) != [] ==> !IsSpace(TrimStart(t)[0])
  {
    hide IsSpace;
    if t != [] && IsSpace(t[0]) {
      TrimStartIs(t[1..]);
      assert forall i :: 0 < i < |t| ==> t[i] == t[1..][i - 1];
    }
  }

  lemma {:induction false} TrimEndIs(t: Text)
    ensures TrimEnd(t) == [] <==> forall i :: 0 <= i < |t| ==> IsSpace(t[i])
  {
    hide IsSpace;
    if t != [] && IsSpace(t[|t| - 1]) { TrimEndIs(t[..|t| - 1]); }
  }

  function SlotOf(q: Request): Slot
    requires !IsBlank(q.key)
  {
    Slot(q.key.value, q.endpoint)
  }

  predicate HasPhase(w: World, r: nat) { r in w.requests && r in w.phases }

  predicate Uses(w: World, r: nat, slot: Slot) {
    HasPhase(w, r) && !IsBlank(w.requests[r].key) && SlotOf(w.requests[r]) == slot
  }

  predicate InFlight(p: Phase) { p.Handling? || p.Saving? }

  /** What the middleware does once the lookup has answered. */
  function LookedUp(rows: map<Slot, Stored>, q: Request, up: bool): Phase {
    if IsBlank(q.key) then Done(KeyRequired)
    else if !up then Done(Unavailable)
    else if SlotOf(q) !in rows then Handling
    else
      var row := rows[SlotOf(q)];
      if row.hash != HashRequestBody(q.body) then Done(Mismatch) else Done(Replayed(row.status, row.body))
  }

  function Looked(w: World, r: nat, up: bool): Phase
    requires HasPhase(w, r)
  {
    LookedUp(w.rows, w.requests[r], up)
  }

  /** The middleware around one request; other requests save while its handler runs. */
  method Handle(store: Store, q: Request, findUp: bool, meanwhile: seq<(Slot, Stored)>, status: int, body: Json,
      createUp: bool, readUp: bool)
    returns (answer: Answer, ran: bool)
    modifies store
    ensures ran <==> LookedUp(old(store.rows), q, findUp).Handling?
    ensures !ran ==> store.rows == old(store.rows) && Done(answer) == LookedUp(old(store.rows), q, findUp)
    ensures ran ==> answer == Own(status, body)
    ensures ran <==> findUp && !IsBlank(q.key) && Slot(q.key.value, q.endpoint) !in old(store.rows)
    ensures ran && createUp ==> Slot(q.key.value, q.endpoint) in store.rows
    ensures ran ==>
              var own := Stored(HashRequestBody(q.body), status, body);
              store.rows == Insert(InsertAll(old(store.rows), meanwhile), SlotOf(q), own, createUp)
  {
    if IsBlank(q.key) { return KeyRequired, false; }
    var slot, hash := Slot(q.key.value, q.endpoint), HashRequestBody(q.body);
    if !findUp { return Unavailable, false; }
    var existing := store.Find(slot);
    if existing.Some? {
      if existing.value.hash != hash { return Mismatch, false; }
      return Replayed(existing.value.status, existing.value.body), false;
    }
    for i := 0 to |meanwhile|
      invariant store.rows == InsertAll(old(store.rows), meanwhile[..i])
    {
      assert meanwhile[..i + 1][..i] == meanwhile[..i];
      var _ := store.Save(meanwhile[i].0, meanwhile[i].1, true, true);
    }
    assert meanwhile[..|meanwhile|] == meanwhile;
    // A save that fails is logged; the caller gets its own response all the same.
    var _ := store.Save(slot, Stored(hash, status, body), createUp, readUp);
    return Own(status, body), true;
  }

  function InsertAll(rows: map<Slot, Stored>, saves: seq<(Slot, Stored)>): map<Slot, Stored> {
    if saves == [] then rows
    else Insert(InsertAll(rows, saves[..|saves| - 1]), saves[|saves| - 1].0, saves[|saves| - 1].1, true)
  }

  function Next(w: World, s: Step): World {
    if !HasPhase(w, s.r) then w
    else
      var q, p := w.requests[s.r], w.phases[s.r];
      match s
      case Lookup(r, up) =>
        if !p.Arrived? then w
        else
          var to := Looked(w, r, up);
          w.(phases := w.phases[r := to], ran := if to.Handling? then w.ran + {r} else w.ran)
      case Reply(r, status, body) =>
        if !p.Handling? then w else w.(phases := w.phases[r := Saving(status, body)])
      case Save(r, up) =>
        if !p.Saving? || IsBlank(q.key) then w
        else
          w.(rows := Insert(w.rows, SlotOf(q), Stored(HashRequestBody(q.body), p.status, p.body), up),
             phases := w.phases[r := Done(Own(p.status, p.body))])
      case Lose(r) =>
        if p.Done? || p.Lost? then w else w.(phases := w.phases[r := Lost(InFlight(p))])
  }

  function After(w: World, steps: seq<Step>): World
    decreases |steps|
  {
    if steps == [] then w else After(Next(w, steps[0]), steps[1..])
  }

  /**
   * A request whose response is on record: it ran its handler, its body has the recorded hash, and
   * it sent what was recorded.
   */
  predicate Wrote(w: World, r: nat, slot: Slot) {
    && Uses(w, r, slot) && r in w.ran && slot in w.rows && w.rows[slot].hash == HashRequestBody(w.requests[r].body)
    && w.phases[r] == Done(Own(w.rows[slot].status, w.rows[slot].body))
  }

  ghost predicate HasWriter(w: World, slot: Slot) { exists r :: Wrote(w, r, slot) }

  /** The handler of a request in this phase was started. */
  predicate Handled(p: Phase) { InFlight(p) || (p.Done? && p.answer.Own?) || p == Lost(true) }

  ghost predicate Inv(w: World) {
    && (forall r :: r in w.requests ==> WellFormed(w.requests[r].body))
    && (forall slot :: slot in w.rows ==> HasWriter(w, slot))
    && (forall r :: r in w.ran ==> HasPhase(w, r) && !IsBlank(w.requests[r].key))
    && (forall r :: HasPhase(w, r) ==> (r in w.ran <==> Handled(w.phases[r])))
  }

  /** Before the run nothing is stored and no request has been looked at. */
  ghost predicate IsStart(w: World) {
    && w.rows == map[] && w.ran == {}
    && (forall r :: r in w.requests ==> WellFormed(w.requests[r].body))
    && (forall r :: r in w.phases ==> w.phases[r].Arrived?)
  }

  lemma WriterStays(w: World, s: Step, slot: Slot)
    requires Inv(w) && slot in Next(w, s).rows
    ensures HasWriter(Next(w, s), slot)
  {
    hide Stringify, WellFormed;
    var v := Next(w, s);
    if slot in w.rows {
      var r :| Wrote(w, r, slot);
      assert Wrote(v, r, slot);
    } else {
      assert Wrote(v, s.r, slot);
    }
  }

  lemma StepKeeps(w: World, s: Step)
    requires Inv(w)
    ensures Inv(Next(w, s))
    ensures Next(w, s).requests == w.requests && Next(w, s).phases.Keys == w.phases.Keys && w.ran <= Next(w, s).ran
    ensures forall slot :: slot in w.rows ==> slot in Next(w, s).rows && Next(w, s).rows[slot] == w.rows[slot]
  {
    hide Stringify, WellFormed, HasWriter, IsSpace;
    forall slot | slot in Next(w, s).rows ensures HasWriter(Next(w, s), slot) { WriterStays(w, s, slot); }
  }

  /** A stored row is written once: no later step of any run changes or removes it. */
  lemma {:induction false} RowNeverChanges(w: World, steps: seq<Step>)
    requires Inv(w)
    ensures Inv(After(w, steps))
    ensures After(w, steps).requests == w.requests && After(w, steps).phases.Keys == w.phases.Keys
              && w.ran <= After(w, steps).ran
    ensures forall slot :: slot in w.rows ==> slot in After(w, steps).rows && After(w, steps).rows[slot] == w.rows[slot]
    decreases |steps|
  {
    hide Inv, Next;
    if steps != [] {
      StepKeeps(w, steps[0]);
      RowNeverChanges(Next(w, steps[0]), steps[1..]);
    }
  }

  /**
   * What a request that comes too late for its slot can be told: the stored response exactly when
   * its body is that of the writer up to key order and with infinities read as null, a conflict
   * exactly when it is not, or that the store could not be asked.
   */
  predicate TooLate(p: Phase, row: Stored, body: Json, written: Json) {
    match p
    case Arrived => true
    case Lost(handled) => !handled
    case Done(Unavailable) => true
    case Done(Mismatch) => !Same(AsWritten(body), AsWritten(written))
    case Done(Replayed(status, reply)) => Same(AsWritten(body), AsWritten(written)) && status == row.status
        && reply == row.body
    case _ => false
  }

  lemma LateStep(w: World, s: Step, r: nat, slot: Slot, k: nat)
    requires Inv(w) && Uses(w, r, slot) && r !in w.ran && Wrote(w, k, slot)
    requires TooLate(w.phases[r], w.rows[slot], w.requests[r].body, w.requests[k].body)
    ensures Wrote(Next(w, s), k, slot) && r !in Next(w, s).ran
    ensures TooLate(Next(w, s).phases[r], w.rows[slot], w.requests[r].body, w.requests[k].body)
  {
    hide Stringify, WellFormed, HasWriter, IsSpace, Same, AsWritten;
    CanonicalIff(w.requests[r].body, w.requests[k].body);
  }

  lemma {:induction false} LateRun(w: World, steps: seq<Step>, r: nat, slot: Slot, k: nat)
    requires Inv(w) && Uses(w, r, slot) && r !in w.ran && Wrote(w, k, slot)
    requires TooLate(w.phases[r], w.rows[slot], w.requests[r].body, w.requests[k].body)
    ensures r in After(w, steps).phases && r !in After(w, steps).ran
    ensures TooLate(After(w, steps).phases[r], w.rows[slot], w.requests[r].body, w.requests[k].body)
    decreases |steps|
  {
    hide Inv, Next, TooLate;
    if steps != [] {
      var v := Next(w, steps[0]);
      StepKeeps(w, steps[0]);
      LateStep(w, steps[0], r, slot, k);
      LateRun(v, steps[1..], r, slot, k);
    }
  }

  /** A request whose lookup comes after the slot's first save never runs its handler and is answered from that save. */
  lemma AnsweredFromFirstSave(w: World, before: seq<Step>, after: seq<Step>, r: nat, slot: Slot) returns (k: nat)
    requires IsStart(w) && Uses(w, r, slot)
    requires slot in After(w, before).rows && r in After(w, before).phases && After(w, before).phases[r].Arrived?
    ensures var u, v := After(w, before), After(After(w, before), after);
            && k in w.requests && Wrote(u, k, slot) && r !in v.ran
            && slot in v.rows && v.rows[slot] == u.rows[slot]
            && r in v.phases && TooLate(v.phases[r], u.rows[slot], w.requests[r].body, w.requests[k].body)
  {
    hide Stringify, WellFormed, IsSpace, Same, AsWritten, Next;
    RowNeverChanges(w, before);
    var u := After(w, before);
    assert HasWriter(u, slot);
    k :| Wrote(u, k, slot);
    RowNeverChanges(u, after);
    LateRun(u, after, r, slot, k);
  }

  // ---- Which requests answer for each other ----

  /** The two requests carry the same key and go to the same endpoint. */
  predicate AreTwins(q: Request, other: Request) { q.key == other.key && q.endpoint == other.endpoint }

  lemma TwinsShareSlot(w: World, r: nat, k: nat, slot: Slot)
    requires HasPhase(w, r) && HasPhase(w, k) && Uses(w, k, slot)
    ensures Uses(w, r, slot) <==> AreTwins(w.requests[r], w.requests[k])
  {
  }

  /** The request was told what another request with its key and its endpoint was sent and is on record with. */
  ghost predicate AnsweredByTwin(w: World, r: nat, k: nat) {
    && k != r && HasPhase(w, r) && HasPhase(w, k) && AreTwins(w.requests[r], w.requests[k])
    && k in w.ran && r !in w.ran && w.phases[k].Done? && w.phases[k].answer.Own? && w.phases[r].Done?
    && match w.phases[r].answer
       case Mismatch => !Same(AsWritten(w.requests[r].body), AsWritten(w.requests[k].body))
       case Replayed(status, body) =>
         Same(AsWritten(w.requests[r].body), AsWritten(w.requests[k].body)) && w.phases[k].answer == Own(status, body)
       case _ => false
  }

  predicate IsTold(w: World, r: nat) {
    HasPhase(w, r) && w.phases[r].Done? && (w.phases[r].answer.Mismatch? || w.phases[r].answer.Replayed?)
  }

  lemma TwinStep(w: World, s: Step, r: nat)
    requires Inv(w) && (IsTold(w, r) ==> exists k :: AnsweredByTwin(w, r, k)) && IsTold(Next(w, s), r)
    ensures exists k :: AnsweredByTwin(Next(w, s), r, k)
  {
    hide Stringify, WellFormed, IsSpace, Same, AsWritten;
    var v := Next(w, s);
    if IsTold(w, r) {
      var k :| AnsweredByTwin(w, r, k);
      assert AnsweredByTwin(v, r, k);
    } else {
      var slot := SlotOf(w.requests[r]);
      assert HasWriter(w, slot);
      var k :| Wrote(w, k, slot);
      TwinsShareSlot(w, r, k, slot);
      CanonicalIff(w.requests[r].body, w.requests[k].body);
      assert AnsweredByTwin(v, r, k);
    }
  }

  /**
   * In every run a request is told of a stored response, or of a conflict with one, only when another
   * request with the same key and the same endpoint ran its handler and was sent that response.
   */
  lemma {:induction false} ToldOnlyOfTwin(w: World, steps: seq<Step>, r: nat)
    requires IsStart(w) && IsTold(After(w, steps), r)
    ensures exists k :: AnsweredByTwin(After(w, steps), r, k)
    decreases |steps|
  {
    hide Next, AnsweredByTwin, Inv;
    if steps != [] {
      var n := |steps| - 1;
      var front := steps[..n];
      assert steps == front + [steps[n]];
      AfterSnoc(w, front, steps[n]);
      RowNeverChanges(w, front) by { StartIsInv(w); }
      if IsTold(After(w, front), r) { ToldOnlyOfTwin(w, front, r); }
      TwinStep(After(w, front), steps[n], r);
    }
  }

  lemma StartIsInv(w: World)
    requires IsStart(w)
    ensures Inv(w)
  {
  }

  /** A request none of whose twins was sent its own response runs its handler, whatever other endpoints stored. */
  lemma OtherEndpointsDoNotMatter(w: World, before: seq<Step>, r: nat)
    requires IsStart(w) && HasPhase(w, r) && !IsBlank(w.requests[r].key)
    requires var u := After(w, before);
             && r in u.phases && u.phases[r].Arrived?
             && forall k :: k in w.requests && k in u.phases && AreTwins(w.requests[r], w.requests[k]) ==>
                  !(u.phases[k].Done? && u.phases[k].answer.Own?)
    ensures var v := Next(After(w, before), Lookup(r, true)); r in v.phases && v.phases[r].Handling? && r in v.ran
  {
    hide Stringify, WellFormed, IsSpace;
    StartIsInv(w);
    RowNeverChanges(w, before);
    var u, slot := After(w, before), SlotOf(w.requests[r]);
    forall k | Uses(u, k, slot) ensures !Wrote(u, k, slot) { TwinsShareSlot(u, r, k, slot); }
    assert !HasWriter(u, slot);
  }

  /** Once a response is saved, no twin that comes later runs its handler in any continuation of the run. */
  lemma TwinsNeverRunAfterSave(w: World, before: seq<Step>, after: seq<Step>, k: nat, r: nat)
    requires IsStart(w) && HasPhase(w, k) && HasPhase(w, r) && AreTwins(w.requests[r], w.requests[k])
    requires var u := After(w, before);
             k in u.phases && u.phases[k].Saving? && r in u.phases && u.phases[r].Arrived?
    ensures r !in After(Next(After(w, before), Save(k, true)), after).ran
  {
    hide Stringify, WellFormed, IsSpace, Same, AsWritten;
    StartIsInv(w);
    RowNeverChanges(w, before);
    var u := After(w, before);
    var saved := before + [Save(k, true)];
    AfterSnoc(w, before, Save(k, true));
    assert !IsBlank(w.requests[k].key);
    var slot := SlotOf(w.requests[k]);
    TwinsShareSlot(w, r, k, slot);
    var _ := AnsweredFromFirstSave(w, saved, after, r, slot);
  }

  // ---- When a handler runs again ----

  predicate RanFor(w: World, k: nat, slot: Slot) { Uses(w, k, slot) && k in w.ran }

  ghost predicate RanTwice(w: World, slot: Slot) { exists a, b :: a != b && RanFor(w, a, slot) && RanFor(w, b, slot) }

  /** A lookup of the slot that is answered while the slot is free. */
  predicate FindsFree(w: World, s: Step, slot: Slot) {
    s.Lookup? && s.up && Uses(w, s.r, slot) && w.phases[s.r].Arrived? && slot !in w.rows
  }

  ghost predicate HasInFlight(w: World, slot: Slot) { exists k :: Uses(w, k, slot) && InFlight(w.phases[k]) }

  /** A response of the slot that was sent or lost and left the slot free. */
  ghost predicate HasUnsaved(w: World, slot: Slot) {
    slot !in w.rows && exists k :: Uses(w, k, slot) && Handled(w.phases[k]) && !InFlight(w.phases[k])
  }

  /** The lookup is answered while the slot is free and another request of the slot is being handled. */
  ghost predicate Overlaps(w: World, s: Step, slot: Slot) { FindsFree(w, s, slot) && HasInFlight(w, slot) }

  /** The lookup is answered while the slot is free, although a handler of the slot was started before. */
  ghost predicate Repeats(w: World, s: Step, slot: Slot) {
    FindsFree(w, s, slot) && (HasInFlight(w, slot) || HasUnsaved(w, slot))
  }

  /** The step loses a response of the slot: its save fails, or its request ends while it is being handled. */
  predicate Loses(w: World, s: Step, slot: Slot) {
    Uses(w, s.r, slot) && ((s.Save? && !s.up && w.phases[s.r].Saving?) || (s.Lose? && InFlight(w.phases[s.r])))
  }

  // A step starts a further handler of the slot exactly when it repeats.
  lemma RepeatStep(w: World, s: Step, slot: Slot)
    requires Inv(w)
    ensures RanTwice(Next(w, s), slot) <==> RanTwice(w, slot) || Repeats(w, s, slot)
  {
    hide Stringify, WellFormed, HasWriter, IsSpace;
    var v := Next(w, s);
    assert forall k :: RanFor(v, k, slot) <==> RanFor(w, k, slot) || (FindsFree(w, s, slot) && k == s.r);
    assert FindsFree(w, s, slot) ==> !RanFor(w, s.r, slot);
    if RanTwice(w, slot) {
      var a, b :| a != b && RanFor(w, a, slot) && RanFor(w, b, slot);
      assert RanFor(v, a, slot) && RanFor(v, b, slot);
    }
    if Repeats(w, s, slot) {
      var k :| Uses(w, k, slot) && Handled(w.phases[k]);
      assert RanFor(v, k, slot) && RanFor(v, s.r, slot);
    }
    if RanTwice(v, slot) && !RanTwice(w, slot) {
      var a, b :| a != b && RanFor(v, a, slot) && RanFor(v, b, slot);
      var k := if a == s.r then b else a;
      assert RanFor(w, k, slot) && Handled(w.phases[k]);
    }
  }

  lemma AfterSnoc(w: World, steps: seq<Step>, s: Step)
    ensures After(w, steps + [s]) == Next(After(w, steps), s)
    decreases |steps|
  {
    hide Next;
    if steps == [] {
      assert [s][1..] == [] && [] + [s] == [s];
      assert After(w, [s]) == After(Next(w, s), []);
    } else {
      assert (steps + [s])[1..] == steps[1..] + [s];
      AfterSnoc(Next(w, steps[0]), steps[1..], s);
    }
  }

  ghost predicate RepeatsAt(w: World, steps: seq<Step>, i: nat, slot: Slot)
    requires i < |steps|
  {
    Repeats(After(w, steps[..i]), steps[i], slot)
  }

  ghost predicate OverlapsAt(w: World, steps: seq<Step>, i: nat, slot: Slot)
    requires i < |steps|
  {
    Overlaps(After(w, steps[..i]), steps[i], slot)
  }

  ghost predicate NoneLost(w: World, steps: seq<Step>, slot: Slot) {
    forall i :: 0 <= i < |steps| ==> !Loses(After(w, steps[..i]), steps[i], slot)
  }

  /**
   * In every run the slot's handler is started a second time if and only if some lookup finds the
   * slot free while another request of it is being handled, or after a response of it was not saved.
   */
  lemma {:induction false} RunsTwiceIff(w: World, steps: seq<Step>, slot: Slot)
    requires IsStart(w)
    ensures RanTwice(After(w, steps), slot) <==> exists i :: 0 <= i < |steps| && RepeatsAt(w, steps, i, slot)
    decreases |steps|
  {
    hide Next, Repeats, RanTwice;
    if steps == [] {
      NoneRan(w, slot);
    } else {
      var n := |steps| - 1;
      var front := steps[..n];
      assert steps == front + [steps[n]];
      AfterSnoc(w, front, steps[n]);
      RowNeverChanges(w, front);
      RunsTwiceIff(w, front, slot);
      RepeatStep(After(w, front), steps[n], slot);
      forall i | 0 <= i < n ensures RepeatsAt(w, front, i, slot) == RepeatsAt(w, steps, i, slot) {
        assert front[..i] == steps[..i];
      }
      if exists i :: 0 <= i < n && RepeatsAt(w, front, i, slot) {
        var i :| 0 <= i < n && RepeatsAt(w, front, i, slot);
        assert RepeatsAt(w, steps, i, slot);
      }
      if Repeats(After(w, front), steps[n], slot) { assert RepeatsAt(w, steps, n, slot); }
      if exists i :: 0 <= i < |steps| && RepeatsAt(w, steps, i, slot) {
        var i :| 0 <= i < |steps| && RepeatsAt(w, steps, i, slot);
        if i < n { assert RepeatsAt(w, front, i, slot); }
      }
    }
  }

  lemma NoneRan(w: World, slot: Slot)
    requires IsStart(w)
    ensures !RanTwice(After(w, []), slot)
  {
  }

  // While nothing of the slot is lost, a response that is no longer under way is on record.
  lemma SavedStep(w: World, s: Step, slot: Slot)
    requires Inv(w) && !HasUnsaved(w, slot) && !Loses(w, s, slot)
    ensures !HasUnsaved(Next(w, s), slot)
  {
    hide Stringify, WellFormed, HasWriter, IsSpace;
  }

  lemma {:induction false} NothingUnsaved(w: World, steps: seq<Step>, slot: Slot)
    requires IsStart(w) && NoneLost(w, steps, slot)
    ensures !HasUnsaved(After(w, steps), slot)
    decreases |steps|
  {
    hide Next, Loses, HasUnsaved;
    if steps == [] {
      FreshHasNoneUnsaved(w, slot);
    } else {
      var n := |steps| - 1;
      var front := steps[..n];
      assert steps == front + [steps[n]];
      forall i | 0 <= i < n ensures !Loses(After(w, front[..i]), front[i], slot) { assert front[..i] == steps[..i]; }
      NothingUnsaved(w, front, slot);
      RowNeverChanges(w, front);
      SavedStep(After(w, front), steps[n], slot);
      AfterSnoc(w, front, steps[n]);
    }
  }

  lemma FreshHasNoneUnsaved(w: World, slot: Slot)
    requires IsStart(w)
    ensures !HasUnsaved(After(w, []), slot)
  {
  }

  /**
   * When no response of the slot is lost, its handler is started a second time if and only if some
   * lookup finds the slot free while another request of it is being handled.
   */
  lemma RunsTwiceIffOverlap(w: World, steps: seq<Step>, slot: Slot)
    requires IsStart(w) && NoneLost(w, steps, slot)
    ensures RanTwice(After(w, steps), slot) <==> exists i :: 0 <= i < |steps| && OverlapsAt(w, steps, i, slot)
  {
    hide After, RanTwice, HasInFlight, HasUnsaved, FindsFree, Loses;
    RunsTwiceIff(w, steps, slot);
    forall i | 0 <= i < |steps| ensures RepeatsAt(w, steps, i, slot) == OverlapsAt(w, steps, i, slot) {
      assert forall k :: 0 <= k < i ==> steps[..i][..k] == steps[..k];
      NothingUnsaved(w, steps[..i], slot);
    }
  }

  // ---- When all responses agree ----

  predicate IsResponse(p: Phase) { p.Done? && (p.answer.Own? || p.answer.Replayed?) }

  /** What the request was sent is what is stored for its slot. */
  predicate Agrees(w: World, r: nat, slot: Slot) {
    && HasPhase(w, r) && IsResponse(w.phases[r]) && slot in w.rows
    && w.rows[slot].status == w.phases[r].answer.status && w.rows[slot].body == w.phases[r].answer.body
  }

  ghost predicate AllAgree(w: World, slot: Slot) {
    forall r :: Uses(w, r, slot) && IsResponse(w.phases[r]) ==> Agrees(w, r, slot)
  }

  // A response about to be saved into a taken slot is a second one.
  lemma SecondHandler(w: World, r: nat, slot: Slot)
    requires Inv(w) && Uses(w, r, slot) && w.phases[r].Saving? && slot in w.rows
    ensures RanTwice(w, slot)
  {
    hide Stringify, WellFormed, IsSpace;
    assert HasWriter(w, slot);
    var k :| Wrote(w, k, slot);
    assert RanFor(w, k, slot) && RanFor(w, r, slot);
  }

  lemma AgreeStep(w: World, s: Step, slot: Slot)
    requires Inv(w) && AllAgree(w, slot) && !Loses(w, s, slot) && !RanTwice(w, slot)
    ensures AllAgree(Next(w, s), slot)
  {
    hide Stringify, WellFormed, IsSpace, RanTwice;
    var v := Next(w, s);
    forall r | Uses(v, r, slot) && IsResponse(v.phases[r]) ensures Agrees(v, r, slot) {
      assert Uses(w, r, slot);
      if w.phases[r].Saving? && slot in w.rows { SecondHandler(w, r, slot); }
    }
  }

  /** When no response of the slot is lost and no lookup overlaps, all responses of the slot are the stored one. */
  lemma {:induction false} ResponsesAgree(w: World, steps: seq<Step>, slot: Slot)
    requires IsStart(w) && NoneLost(w, steps, slot)
    requires forall i :: 0 <= i < |steps| ==> !OverlapsAt(w, steps, i, slot)
    ensures AllAgree(After(w, steps), slot) && !RanTwice(After(w, steps), slot)
    decreases |steps|
  {
    hide Next, Loses, AllAgree, RanTwice, Overlaps;
    RunsTwiceIffOverlap(w, steps, slot);
    if steps == [] {
      NothingSent(w, slot);
    } else {
      var n := |steps| - 1;
      var front := steps[..n];
      assert steps == front + [steps[n]];
      forall i | 0 <= i < n ensures !Loses(After(w, front[..i]), front[i], slot) && !OverlapsAt(w, front, i, slot) {
        assert front[..i] == steps[..i];
        assert !OverlapsAt(w, steps, i, slot);
      }
      ResponsesAgree(w, front, slot);
      RowNeverChanges(w, front);
      AgreeStep(After(w, front), steps[n], slot);
      AfterSnoc(w, front, steps[n]);
    }
  }

  lemma NothingSent(w: World, slot: Slot)
    requires IsStart(w)
    ensures AllAgree(After(w, []), slot)
  {
  }

  /** Two overlapping requests with one body: both handlers run, and the callers are told different things. */
  lemma OverlapCanDisagree(q: Request)
    requires !IsBlank(q.key) && WellFormed(q.body)
    ensures var w := World(map[], map[0 := q, 1 := q], map[0 := Arrived, 1 := Arrived], {});
            var v := After(w, [Lookup(0, true), Lookup(1, true), Reply(0, 201, Null), Reply(1, 500, Null),
                Save(0, true), Save(1, true)]);
            && IsStart(w) && v.ran == {0, 1}
            && v.phases == map[0 := Done(Own(201, Null)), 1 := Done(Own(500, Null))]
  {
    hide Stringify, WellFormed, IsBlank, After, Next;
    AfterSix(Both(q, map[], Arrived, Arrived, {}),
             [Lookup(0, true), Lookup(1, true), Reply(0, 201, Null), Reply(1, 500, Null), Save(0, true),
                 Save(1, true)]);
    BothLookUp(q);
    BothReply(q);
    BothSave(q);
  }

  function Both(q: Request, rows: map<Slot, Stored>, p: Phase, o: Phase, ran: set<nat>): World {
    World(rows, map[0 := q, 1 := q], map[0 := p, 1 := o], ran)
  }

  lemma BothLookUp(q: Request)
    requires !IsBlank(q.key)
    ensures Next(Next(Both(q, map[], Arrived, Arrived, {}), Lookup(0, true)), Lookup(1, true))
              == Both(q, map[], Handling, Handling, {0, 1})
  {
    hide Stringify, IsBlank;
    assert Next(Both(q, map[], Arrived, Arrived, {}), Lookup(0, true)) == Both(q, map[], Handling, Arrived, {0});
  }

  lemma BothReply(q: Request)
    ensures Next(Next(Both(q, map[], Handling, Handling, {0, 1}), Reply(0, 201, Null)), Reply(1, 500, Null)) ==
            Both(q, map[], Saving(201, Null), Saving(500, Null), {0, 1})
  {
    hide Stringify, IsBlank;
    assert Next(Both(q, map[], Handling, Handling, {0, 1}), Reply(0, 201, Null))
        == Both(q, map[], Saving(201, Null), Handling, {0, 1});
  }

  lemma BothSave(q: Request)
    requires !IsBlank(q.key)
    ensures var rows := map[SlotOf(q) := Stored(HashRequestBody(q.body), 201, Null)];
            Next(Next(Both(q, map[], Saving(201, Null), Saving(500, Null), {0, 1}), Save(0, true)), Save(1, true)) ==
            Both(q, rows, Done(Own(201, Null)), Done(Own(500, Null)), {0, 1})
  {
    hide Stringify, IsBlank;
    var rows := map[SlotOf(q) := Stored(HashRequestBody(q.body), 201, Null)];
    assert Next(Both(q, map[], Saving(201, Null), Saving(500, Null), {0, 1}), Save(0, true)) ==
           Both(q, rows, Done(Own(201, Null)), Saving(500, Null), {0, 1});
  }

  lemma AfterSix(w: World, s: seq<Step>)
    requires |s| == 6
    ensures After(w, s) == Next(Next(Next(Next(Next(Next(w, s[0]), s[1]), s[2]), s[3]), s[4]), s[5])
  {
    hide Next;
    assert s[1..][1..] == s[2..] && s[2..][1..] == s[3..] && s[3..][1..] == s[4..] && s[4..][1..] == s[5..]
        && s[5..][1..] == [];
    var a := Next(w, s[0]);
    var b := Next(a, s[1]);
    var c := Next(b, s[2]);
    var d := Next(c, s[3]);
    assert After(w, s) == After(a, s[1..]);
    assert After(a, s[1..]) == After(b, s[2..]);
    assert After(b, s[2..]) == After(c, s[3..]);
    assert After(c, s[3..]) == After(d, s[4..]);
    assert After(d, s[4..]) == After(Next(d, s[4]), s[5..]);
    assert After(Next(d, s[4]), s[5..]) == After(Next(Next(d, s[4]), s[5]), []);
  }
}
