/** The upload and deletion services as they run: one request's code, with other requests at work between its steps. */
module PhotoService {
  import opened Base
  import opened PhotoStore

  /** A step that does not belong to upload n. */
  predicate IsForeign(s: Step, n: nat) {
    (IsUploadStep(s) || s.Register?) ==> s.n != n
  }

  predicate AreForeign(steps: seq<Step>, n: nat) { forall i :: 0 <= i < |steps| ==> IsForeign(steps[i], n) }

  /** Upload n is on its way in this phase: it has no rows yet, and exactly these objects. */
  ghost predicate IsUnderWay(w: World, n: nat, u: Upload, main: bool, thumb: bool) {
    && Inv(w) && n in w.uploads && w.uploads[n] == u && !u.phase.Ended?
    && (Main(n) in w.objects <==> main) && (Thumb(n) in w.objects <==> thumb)
  }

  lemma ForeignStep(w: World, s: Step, n: nat, u: Upload, main: bool, thumb: bool)
    requires IsForeign(s, n) && IsUnderWay(w, n, u, main, thumb)
    ensures IsUnderWay(Next(w, s), n, u, main, thumb)
  {
    StepKeepsInv(w, s);
    assert UploadOk(w, n);
    NotDoomed(w, Main(n));
    NotDoomed(w, Thumb(n));
    hide Inv, Photos, UploadOk, RowOk;
  }

  lemma {:induction false} ForeignRun(w: World, steps: seq<Step>, n: nat, u: Upload, main: bool, thumb: bool)
    requires AreForeign(steps, n) && IsUnderWay(w, n, u, main, thumb)
    ensures IsUnderWay(After(w, steps), n, u, main, thumb)
    decreases |steps|
  {
    hide IsUnderWay, Next, IsForeign;
    if steps != [] {
      ForeignStep(w, steps[0], n, u, main, thumb);
      ForeignRun(Next(w, steps[0]), steps[1..], n, u, main, thumb);
    }
  }

  lemma AfterSnoc(w: World, steps: seq<Step>, s: Step)
    ensures After(w, steps + [s]) == Next(After(w, steps), s)
  {
    hide Next;
    AfterConcat(w, steps, [s]);
    var v := After(w, steps);
    assert [s][1..] == [];
    assert After(v, [s]) == After(Next(v, s), []);
  }

  class Service {
    var objects: set<DocId>
    var docs: map<DocId, Doc>
    var rooms: map<Id, Room>
    var cases: map<Id, Id>
    var uploads: map<nat, Upload>
    var doomed: set<DocId>

    function View(): World
      reads this
    {
      World(objects, docs, rooms, cases, uploads, doomed)
    }

    constructor ()
      ensures View() == Start()
    {
      objects, docs, rooms, cases, uploads, doomed := {}, map[], map[], map[], map[], {};
    }

    /** What other requests do meanwhile. */
    method Meanwhile(steps: seq<Step>)
      modifies this
      ensures View() == After(old(View()), steps)
    {
      var w := After(View(), steps);
      objects, docs, rooms, cases, uploads, doomed := w.objects, w.docs, w.rooms, w.cases, w.uploads, w.doomed;
    }

    method SetRepresentative(caseId: Id, r: Id, n: nat) returns (ok: bool)
      modifies this
      ensures View() == Next(old(View()), Step.SetRepresentative(caseId, r, n))
      ensures ok <==> IsPhotoOf(old(View()), Main(n), caseId, r) && RoomIsOfCase(old(View()), caseId, r)
      ensures ok ==> rooms == old(rooms)[r := old(rooms)[r].(preferred := Some(n))]
    {
      if !IsPhotoOf(View(), Main(n), caseId, r) { return false; }
      if r !in rooms || caseId !in cases || rooms[r].property != cases[caseId] { return false; }
      rooms := rooms[r := rooms[r].(preferred := Some(n))];
      ok := true;
    }

    /**
     * The transaction withdraws the photo and its thumbnail; their objects are then deleted as far
     * as storage answers.
     */
    method DeletePhoto(caseId: Id, r: Id, n: nat, meanwhile: seq<Step>, answers: map<DocId, bool>)
      modifies this
      ensures var w := After(Next(old(View()), Step.DeletePhoto(caseId, r, n)), meanwhile);
              if !IsPhotoOf(old(View()), Main(n), caseId, r) then View() == old(View())
              else
                var targets := if Thumb(n) in old(docs) then {Main(n), Thumb(n)} else {Main(n)};
                View() == w.(objects := w.objects - Answered(targets, answers), doomed := w.doomed - targets)
    {
      if !IsPhotoOf(View(), Main(n), caseId, r) { return; }
      var targets := if Thumb(n) in docs then {Main(n), Thumb(n)} else {Main(n)};
      docs := Withdraw(docs, n);
      if r in rooms && rooms[r].preferred == Some(n) {
        rooms := rooms[r := rooms[r].(preferred := None)];
      }
      doomed := doomed + targets;
      assert View() == Next(old(View()), Step.DeletePhoto(caseId, r, n));
      Meanwhile(meanwhile);
      DeleteObjects(targets, answers);
    }

    /**
     * The transaction withdraws every document of the room and removes the room; their objects are
     * deleted afterwards.
     */
    method DeleteRoom(caseId: Id, r: Id, meanwhile: seq<Step>, answers: map<DocId, bool>) returns (ok: bool)
      modifies this
      ensures ok <==> RoomIsOfCase(old(View()), caseId, r)
      ensures var w := After(Next(old(View()), Step.DeleteRoom(caseId, r)), meanwhile);
              if !ok then View() == old(View())
              else
                var targets := set d | d in old(docs) && old(docs)[d].live && IsInRoom(old(View()), d, r);
                View() == w.(objects := w.objects - Answered(targets, answers), doomed := w.doomed - targets)
    {
      if caseId !in cases || r !in rooms || rooms[r].property != cases[caseId] { return false; }
      var before := View();
      var targets := set d | d in docs && docs[d].live && IsInRoom(before, d, r);
      docs := Vacate(docs, r);
      rooms := rooms - {r};
      doomed := doomed + targets;
      assert View() == Next(old(View()), Step.DeleteRoom(caseId, r));
      Meanwhile(meanwhile);
      DeleteObjects(targets, answers);
      ok := true;
    }

    method DeleteObjects(targets: set<DocId>, answers: map<DocId, bool>)
      modifies this
      ensures View() == old(View()).(objects := old(objects) - Answered(targets, answers),
                doomed := old(doomed) - targets)
    {
      var rest := targets;
      while rest != {}
        invariant rest <= targets
        invariant docs == old(docs) && rooms == old(rooms) && cases == old(cases) && uploads == old(uploads)
        invariant objects == old(objects) - Answered(targets - rest, answers)
        invariant doomed == old(doomed) - (targets - rest)
        decreases rest
      {
        var d :| d in rest;
        if d in answers && answers[d] { objects := objects - {d}; }
        doomed := doomed - {d};
        rest := rest - {d};
      }
      assert targets - rest == targets;
    }

    method PutDocument(n: nat, put: Put)
      requires n in uploads && IsUnderWay(View(), n, uploads[n], false, false) && uploads[n].phase.Received?
      modifies this
      ensures View() == Next(old(View()), PutObject(n, put)) && Inv(View()) && Main(n) !in docs && Thumb(n) !in docs
      ensures put.Written? ==> IsUnderWay(View(), n, old(uploads)[n].(phase := Stored), true, false)
      ensures put.NotWritten? ==> Main(n) !in objects && Thumb(n) !in objects
    {
      PutIs(View(), n, put, uploads[n], false, false);
      hide Inv, Next;
      if !put.NotWritten? { objects := objects + {Main(n)}; }
      uploads := uploads[n := uploads[n].(phase := if put.Written? then Stored else Ended)];
    }

    /** A thumbnail that cannot be made or stored fails the upload; other documents have none. */
    method PutPreview(n: nat, thumbnail: Option<Put>) returns (failing: bool, thumb: bool)
      requires n in uploads && IsUnderWay(View(), n, uploads[n], true, false) && uploads[n].phase.Stored?
      modifies this
      ensures View() == Next(old(View()), PreviewStep(n, old(uploads)[n], thumbnail))
      ensures thumb == (old(uploads)[n].room.Some? && thumbnail.Some?)
      ensures failing <==> old(uploads)[n].room.Some? && thumbnail != Some(Written)
      ensures IsUnderWay(View(), n, old(uploads)[n].(phase := if failing then Failing(thumb) else Ready), true,
                         thumb && !thumbnail.value.NotWritten?)
    {
      failing, thumb := false, false;
      if uploads[n].room.Some? && thumbnail.Some? {
        ThumbnailIs(View(), n, thumbnail.value, uploads[n], true, false);
        hide Inv, Next;
        thumb := true;
        if !thumbnail.value.NotWritten? { objects := objects + {Thumb(n)}; }
        failing := !thumbnail.value.Written?;
      } else {
        NoThumbnailIs(View(), n, uploads[n], true, false);
        hide Inv, Next;
        failing := uploads[n].room.Some?;
      }
      uploads := uploads[n := uploads[n].(phase := if failing then Failing(thumb) else Ready)];
    }

    /**
     * The registering transaction: a photo is counted under its room's lock, and its rows appear
     * together or not at all.
     */
    method RegisterRows(n: nat, ok: bool) returns (accepted: bool)
      requires n in uploads && IsUnderWay(View(), n, uploads[n], true, uploads[n].room.Some?) && uploads[n].phase.Ready?
      modifies this
      ensures View() == Next(old(View()), Register(n, ok)) && objects == old(objects)
      ensures accepted ==>
                var u := old(uploads)[n];
                && Inv(View()) && Main(n) in docs && docs[Main(n)] == Doc(u.caseId, u.room, u.room.Some?, true)
                && (u.room.Some? ==> Thumb(n) in docs && docs[Thumb(n)].live)
      ensures !accepted ==>
                var u := old(uploads)[n]; IsUnderWay(View(), n, u.(phase := Failing(u.room.Some?)), true, u.room.Some?)
    {
      RegisterStepIs(View(), n, ok, uploads[n], true, uploads[n].room.Some?);
      hide Inv, Next, Photos;
      accepted := CanRegister(View(), n, ok);
      if accepted {
        docs := docs + Rows(uploads[n], n);
        uploads := uploads[n := uploads[n].(phase := Ended)];
      } else {
        uploads := uploads[n := uploads[n].(phase := Failing(uploads[n].room.Some?))];
      }
    }

    /** The clean-up of a failed upload, thumbnail first. */
    method CleanUp(n: nat, thumb: bool, cleanedThumb: bool, cleaned: bool) returns (ghost run: seq<Step>)
      requires n in uploads && Inv(View()) && uploads[n].phase == Failing(thumb)
      requires !thumb ==> Thumb(n) !in objects
      modifies this
      ensures View() == After(old(View()), run) && Inv(View()) && Main(n) !in docs && Thumb(n) !in docs
      ensures cleaned && cleanedThumb ==> Main(n) !in objects && Thumb(n) !in objects
    {
      hide Inv, Next, After;
      ghost var start := View();
      run := [];
      EmptyRun(start);
      if thumb {
        CleanThumbnailIs(View(), n, cleanedThumb);
        if cleanedThumb { objects := objects - {Thumb(n)}; }
        uploads := uploads[n := uploads[n].(phase := Failing(false))];
        AfterSnoc(start, run, CleanThumbnail(n, cleanedThumb));
        run := run + [CleanThumbnail(n, cleanedThumb)];
      }
      CleanObjectIs(View(), n, cleaned);
      if cleaned { objects := objects - {Main(n)}; }
      uploads := uploads[n := uploads[n].(phase := Ended)];
      AfterSnoc(start, run, CleanObject(n, cleaned));
      run := run + [CleanObject(n, cleaned)];
    }

    /**
     * One upload: the object, the thumbnail, the registering transaction, and the clean-up when any of
     * them fails. It is a run of the steps of PhotoStore; what it accepts is complete, and what it
     * refuses is gone from both stores as far as storage answers.
     */
    method Execute(n: nat, caseId: Id, room: Option<Id>, put: Put, thumbnail: Option<Put>, ok: bool,
        cleanedThumb: bool, cleaned: bool,
                   d1: seq<Step>, d2: seq<Step>, d3: seq<Step>)
      returns (accepted: bool, ghost run: seq<Step>)
      requires Inv(View()) && n !in uploads && Main(n) !in objects && Thumb(n) !in objects
      requires AreForeign(d1, n) && AreForeign(d2, n) && AreForeign(d3, n)
      modifies this
      ensures View() == After(old(View()), run) && Inv(View())
      ensures accepted ==>
                && Main(n) in docs && docs[Main(n)] == Doc(caseId, room, room.Some?, true) && Main(n) in objects
                && (room.Some? ==> Thumb(n) in docs && docs[Thumb(n)].live && Thumb(n) in objects)
      ensures !accepted ==> Main(n) !in docs && Thumb(n) !in docs
      ensures !accepted && !put.WrittenButLost? && cleaned && cleanedThumb ==>
                Main(n) !in objects && Thumb(n) !in objects
    {
      hide Inv, After, Next, CanBegin, AreForeign;
      ghost var start := View();
      Unbegun(start, n);
      if !CanBegin(View(), n, caseId, room) {
        EmptyRun(start);
        return false, [];
      }
      uploads := uploads[n := Upload(caseId, room, Received)];
      run := [Begin(n, caseId, room)] + d1;
      BeginsUnderWay(start, n, caseId, room);
      AfterBegin(start, n, caseId, room, d1);
      ForeignRun(View(), d1, n, uploads[n], false, false);
      Meanwhile(d1);

      AfterSnoc(start, run, PutObject(n, put));
      PutDocument(n, put);
      run := run + [PutObject(n, put)];
      if !put.Written? { return false, run; }
      AfterConcat(start, run, d2);
      run := run + d2;
      ForeignRun(View(), d2, n, uploads[n], true, false);
      Meanwhile(d2);

      AfterSnoc(start, run, PreviewStep(n, uploads[n], thumbnail));
      run := run + [PreviewStep(n, uploads[n], thumbnail)];
      var failing, thumb := PutPreview(n, thumbnail);
      if !failing {
        AfterConcat(start, run, d3);
        run := run + d3;
        ForeignRun(View(), d3, n, uploads[n], true, thumb);
        Meanwhile(d3);
        AfterSnoc(start, run, Register(n, ok));
        run := run + [Register(n, ok)];
        accepted := RegisterRows(n, ok);
        if accepted { return; }
      }
      ghost var cleaning := CleanUp(n, thumb, cleanedThumb, cleaned);
      AfterConcat(start, run, cleaning);
      run := run + cleaning;
      accepted := false;
    }
  }

  function PreviewStep(n: nat, u: Upload, thumbnail: Option<Put>): Step {
    if u.room.Some? && thumbnail.Some? then PutThumbnail(n, thumbnail.value) else NoThumbnail(n)
  }

  function Answered(targets: set<DocId>, answers: map<DocId, bool>): set<DocId> {
    set d | d in targets && d in answers && answers[d]
  }

  // ---- What each of the upload's own steps does ----

  lemma EmptyRun(w: World)
    ensures After(w, []) == w
  {
  }

  lemma Unbegun(w: World, n: nat)
    requires Inv(w) && n !in w.uploads
    ensures Main(n) !in w.docs && Thumb(n) !in w.docs
  {
    Unregistered(w, n);
  }

  lemma BeginsUnderWay(w: World, n: nat, caseId: Id, room: Option<Id>)
    requires Inv(w) && CanBegin(w, n, caseId, room) && Main(n) !in w.objects && Thumb(n) !in w.objects
    ensures var u := Upload(caseId, room, Received);
            IsUnderWay(w.(uploads := w.uploads[n := u]), n, u, false, false)
  {
    StepKeepsInv(w, Begin(n, caseId, room));
    hide Inv, Photos;
  }

  lemma AfterBegin(w: World, n: nat, caseId: Id, room: Option<Id>, steps: seq<Step>)
    requires CanBegin(w, n, caseId, room)
    ensures After(w, [Begin(n, caseId, room)] + steps)
              == After(w.(uploads := w.uploads[n := Upload(caseId, room, Received)]), steps)
  {
    hide Photos, CanBegin;
    assert ([Begin(n, caseId, room)] + steps)[1..] == steps;
  }

  lemma PutIs(w: World, n: nat, put: Put, u: Upload, m: bool, t: bool)
    requires IsUnderWay(w, n, u, m, t) && u.phase.Received?
    ensures var v := Next(w, PutObject(n, put));
            && v == w.(uploads := w.uploads[n := u.(phase := if put.Written? then Stored else Ended)],
                       objects := if put.NotWritten? then w.objects else w.objects + {Main(n)})
            && Inv(v) && Main(n) !in w.docs && Thumb(n) !in w.docs
  {
    StepKeepsInv(w, PutObject(n, put));
    assert UploadOk(w, n);
    hide Inv;
  }

  lemma ThumbnailIs(w: World, n: nat, put: Put, u: Upload, m: bool, t: bool)
    requires IsUnderWay(w, n, u, m, t) && u.phase.Stored? && u.room.Some?
    ensures var v := Next(w, PutThumbnail(n, put));
            && v == w.(uploads := w.uploads[n := u.(phase := if put.Written? then Ready else Failing(true))],
                       objects := if put.NotWritten? then w.objects else w.objects + {Thumb(n)})
            && Inv(v)
  {
    StepKeepsInv(w, PutThumbnail(n, put));
    hide Inv;
  }

  lemma NoThumbnailIs(w: World, n: nat, u: Upload, m: bool, t: bool)
    requires IsUnderWay(w, n, u, m, t) && u.phase.Stored?
    ensures var v := Next(w, NoThumbnail(n));
            && v == w.(uploads := w.uploads[n := u.(phase := if u.room.None? then Ready else Failing(false))])
            && Inv(v)
  {
    StepKeepsInv(w, NoThumbnail(n));
    hide Inv;
  }

  lemma RegisterStepIs(w: World, n: nat, ok: bool, u: Upload, m: bool, t: bool)
    requires IsUnderWay(w, n, u, m, t) && u.phase.Ready?
    ensures var v := Next(w, Register(n, ok));
            && v == (if CanRegister(w, n, ok) then w.(docs := w.docs + Rows(u, n),
                  uploads := w.uploads[n := u.(phase := Ended)])
                     else w.(uploads := w.uploads[n := u.(phase := Failing(u.room.Some?))]))
            && Inv(v) && Main(n) !in w.docs && Thumb(n) !in w.docs
  {
    StepKeepsInv(w, Register(n, ok));
    assert UploadOk(w, n);
    hide Inv, Photos;
  }

  lemma CleanThumbnailIs(w: World, n: nat, ok: bool)
    requires Inv(w) && AtPhase(w, n, Failing(true))
    ensures var v := Next(w, CleanThumbnail(n, ok));
            && v == w.(uploads := w.uploads[n := w.uploads[n].(phase := Failing(false))],
                       objects := if ok then w.objects - {Thumb(n)} else w.objects)
            && Inv(v) && Main(n) !in w.docs && Thumb(n) !in w.docs
  {
    StepKeepsInv(w, CleanThumbnail(n, ok));
    assert UploadOk(w, n);
    hide Inv;
  }

  lemma CleanObjectIs(w: World, n: nat, ok: bool)
    requires Inv(w) && AtPhase(w, n, Failing(false))
    ensures var v := Next(w, CleanObject(n, ok));
            && v == w.(uploads := w.uploads[n := w.uploads[n].(phase := Ended)],
                       objects := if ok then w.objects - {Main(n)} else w.objects)
            && Inv(v) && Main(n) !in w.docs && Thumb(n) !in w.docs
  {
    StepKeepsInv(w, CleanObject(n, ok));
    assert UploadOk(w, n);
    hide Inv;
  }
}
