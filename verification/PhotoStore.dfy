/**
 * Case documents in two places: objects in storage, rows in the database. Uploads write the object
 * first and the row in a transaction; deletions mark the row first and delete the object later.
 * Every step may be the last one before a crash, and steps of all requests interleave.
 */
module PhotoStore {
  import opened Base

  type Id = string

  const MAX_BYTES := 104_857_600
  const MAX_PHOTOS := 5

  // ---- Reading the request body ----

  datatype Body = TooLarge | Empty | Bytes(bytes: seq<bv8>)

  function Concat(chunks: seq<seq<bv8>>): seq<bv8> {
    if chunks == [] then [] else Concat(chunks[..|chunks| - 1]) + chunks[|chunks| - 1]
  }

  lemma {:induction false} ConcatGrows(chunks: seq<seq<bv8>>, n: nat)
    requires n <= |chunks|
    ensures |Concat(chunks[..n])| <= |Concat(chunks)|
    decreases |chunks|
  {
    if n < |chunks| {
      ConcatGrows(chunks[..|chunks| - 1], n);
      assert chunks[..|chunks| - 1][..n] == chunks[..n];
    } else {
      assert chunks[..n] == chunks;
    }
  }

  /** The body is refused as soon as it is over the limit, which is exactly when the whole of it is. */
  method ReadBody(chunks: seq<seq<bv8>>) returns (body: Body)
    ensures body == if |Concat(chunks)| > 100 * 1024 * 1024 then TooLarge
                    else if Concat(chunks) == [] then Empty
                    else Bytes(Concat(chunks))
  {
    var bytes, size := [], 0;
    for i := 0 to |chunks|
      invariant bytes == Concat(chunks[..i]) && size == |bytes| <= MAX_BYTES
    {
      assert chunks[..i + 1][..i] == chunks[..i];
      ConcatGrows(chunks, i + 1);
      size := size + |chunks[i]|;
      if size > MAX_BYTES { return TooLarge; }
      bytes := bytes + chunks[i];
    }
    assert chunks[..|chunks|] == chunks;
    if size == 0 { return Empty; }
    body := Bytes(bytes);
  }

  // ---- The two stores ----

  /** A document or its thumbnail: the id of a row and the key of its object. */
  datatype DocId = Main(n: nat) | Thumb(n: nat)

  datatype Doc = Doc(caseId: Id, room: Option<Id>, photo: bool, live: bool)

  datatype Room = Room(property: Id, preferred: Option<nat>)

  datatype Phase = Received | Stored | Ready | Failing(thumb: bool) | Ended

  datatype Upload = Upload(caseId: Id, room: Option<Id>, phase: Phase)

  /**
   * Storage, the database tables, the uploads ever begun, and the objects that finished deletions
   * have yet to remove.
   */
  datatype World = World(
    objects: set<DocId>, docs: map<DocId, Doc>, rooms: map<Id, Room>, cases: map<Id, Id>,
    uploads: map<nat, Upload>, doomed: set<DocId>)

  datatype Put = Written | WrittenButLost | NotWritten

  datatype Step =
    | Begin(n: nat, caseId: Id, room: Option<Id>)
    | PutObject(n: nat, put: Put)
    | PutThumbnail(n: nat, put: Put)
    | NoThumbnail(n: nat)
    | Register(n: nat, ok: bool)
    | CleanThumbnail(n: nat, ok: bool)
    | CleanObject(n: nat, ok: bool)
    | Crash(n: nat)
    | SetRepresentative(caseId: Id, r: Id, n: nat)
    | DeletePhoto(caseId: Id, r: Id, n: nat)
    | DeleteRoom(caseId: Id, r: Id)
    | DeleteObject(d: DocId, ok: bool)
    | AddRoom(r: Id, property: Id)
    | AddCase(caseId: Id, property: Id)

  /** An accepted photo of this case in this room that is not deleted. */
  predicate IsPhotoOf(w: World, d: DocId, caseId: Id, r: Id) {
    d.Main? && d in w.docs && w.docs[d].live && w.docs[d].photo && w.docs[d].caseId == caseId
        && w.docs[d].room == Some(r)
  }

  function Photos(w: World, caseId: Id, r: Id): set<DocId> { set d | d in w.docs && IsPhotoOf(w, d, caseId, r) }

  predicate RoomIsOfCase(w: World, caseId: Id, r: Id) {
    caseId in w.cases && r in w.rooms && w.rooms[r].property == w.cases[caseId]
  }

  predicate AtPhase(w: World, n: nat, p: Phase) { n in w.uploads && w.uploads[n].phase == p }

  function To(w: World, n: nat, p: Phase): World
    requires n in w.uploads
  {
    w.(uploads := w.uploads[n := w.uploads[n].(phase := p)])
  }

  predicate CanBegin(w: World, n: nat, caseId: Id, room: Option<Id>) {
    && n !in w.uploads && caseId in w.cases
    && (room.Some? ==> RoomIsOfCase(w, caseId, room.value) && |Photos(w, caseId, room.value)| < MAX_PHOTOS)
  }

  /** The registering transaction goes through: nothing else fails, and a photo finds its room there and not full. */
  predicate CanRegister(w: World, n: nat, ok: bool)
    requires n in w.uploads
  {
    var u := w.uploads[n];
    ok && (u.room.Some? ==> u.room.value in w.rooms && |Photos(w, u.caseId, u.room.value)| < MAX_PHOTOS)
  }

  function Rows(u: Upload, n: nat): map<DocId, Doc> {
    var row := Doc(u.caseId, u.room, u.room.Some?, true);
    if u.room.Some? then map[Main(n) := row, Thumb(n) := row.(photo := false)] else map[Main(n) := row]
  }

  function Withdraw(docs: map<DocId, Doc>, n: nat): map<DocId, Doc> {
    map d | d in docs :: if d == Main(n) || d == Thumb(n) then docs[d].(live := false) else docs[d]
  }

  function Vacate(docs: map<DocId, Doc>, r: Id): map<DocId, Doc> {
    map d | d in docs :: if docs[d].room == Some(r) then docs[d].(live := false, room := None) else docs[d]
  }

  function Next(w: World, s: Step): World {
    match s
    case Begin(n, caseId, room) =>
      if CanBegin(w, n, caseId, room) then w.(uploads := w.uploads[n := Upload(caseId, room, Received)]) else w
    case PutObject(n, put) =>
      if !AtPhase(w, n, Received) then w
      else To(w, n, if put.Written? then Stored else Ended).(objects := if put.NotWritten? then w.objects
          else w.objects + {Main(n)})
    case PutThumbnail(n, put) =>
      if !AtPhase(w, n, Stored) || w.uploads[n].room.None? then w
      else To(w, n, if put.Written? then Ready else Failing(true)).(objects := if put.NotWritten? then w.objects
          else w.objects + {Thumb(n)})
    case NoThumbnail(n) =>
      if !AtPhase(w, n, Stored) then w else To(w, n, if w.uploads[n].room.None? then Ready else Failing(false))
    case Register(n, ok) =>
      if !AtPhase(w, n, Ready) then w
      else if CanRegister(w, n, ok) then To(w, n, Ended).(docs := w.docs + Rows(w.uploads[n], n))
      else To(w, n, Failing(w.uploads[n].room.Some?))
    case CleanThumbnail(n, ok) =>
      if !AtPhase(w, n, Failing(true)) then w
      else To(w, n, Failing(false)).(objects := if ok then w.objects - {Thumb(n)} else w.objects)
    case CleanObject(n, ok) =>
      if !AtPhase(w, n, Failing(false)) then w
      else To(w, n, Ended).(objects := if ok then w.objects - {Main(n)} else w.objects)
    case Crash(n) => if n in w.uploads then To(w, n, Ended) else w
    case SetRepresentative(caseId, r, n) =>
      if IsPhotoOf(w, Main(n), caseId, r) && RoomIsOfCase(w, caseId, r)
      then w.(rooms := w.rooms[r := w.rooms[r].(preferred := Some(n))]) else w
    case DeletePhoto(caseId, r, n) =>
      if !IsPhotoOf(w, Main(n), caseId, r) then w
      else
        w.(docs := Withdraw(w.docs, n),
           rooms := if r in w.rooms
               && w.rooms[r].preferred == Some(n) then w.rooms[r := w.rooms[r].(preferred := None)] else w.rooms,
           doomed := w.doomed + {Main(n)} + if Thumb(n) in w.docs then {Thumb(n)} else {})
    case DeleteRoom(caseId, r) =>
      if !RoomIsOfCase(w, caseId, r) then w
      else
        w.(docs := Vacate(w.docs, r), rooms := w.rooms - {r},
           doomed := w.doomed + set d | d in w.docs && w.docs[d].live && IsInRoom(w, d, r))
    case DeleteObject(d, ok) =>
      if d !in w.doomed then w else w.(objects := if ok then w.objects - {d} else w.objects, doomed := w.doomed - {d})
    case AddRoom(r, property) =>
      if r in w.rooms || NamesRoom(w, r) then w else w.(rooms := w.rooms[r := Room(property, None)])
    case AddCase(caseId, property) =>
      if caseId in w.cases || HasCase(w, property) then w else w.(cases := w.cases[caseId := property])
  }

  // A document of the room, or the thumbnail of one.
  predicate IsInRoom(w: World, d: DocId, r: Id)
    requires d in w.docs
  {
    w.docs[d].room == Some(r) || (d.Thumb? && Main(d.n) in w.docs && w.docs[Main(d.n)].room == Some(r))
  }

  // A case is created together with a property of its own.
  predicate HasCase(w: World, property: Id) { exists c :: c in w.cases && w.cases[c] == property }

  // Room ids are never reused: an upload that still names a deleted room finds none.
  predicate NamesRoom(w: World, r: Id) { exists n :: n in w.uploads && w.uploads[n].room == Some(r) }

  // ---- What every reachable world satisfies ----

  predicate RowOk(w: World, d: DocId)
    requires d in w.docs
  {
    var row := w.docs[d];
    && d.n in w.uploads && w.uploads[d.n].phase.Ended?
    && (row.live ==> d in w.objects && d !in w.doomed)
    && (row.room.Some? ==> row.live ==> RoomIsOfCase(w, row.caseId, row.room.value))
    && (d.Main? && row.live ==> (row.photo <==> row.room.Some?))
    && (d.Thumb? ==>
          && Main(d.n) in w.docs && row.room == w.docs[Main(d.n)].room && row.caseId == w.docs[Main(d.n)].caseId
          && w.docs[Main(d.n)].photo && (row.live ==> w.docs[Main(d.n)].live))
  }

  predicate UploadOk(w: World, n: nat)
    requires n in w.uploads
  {
    var u := w.uploads[n];
    && (u.phase.Stored? || u.phase.Ready? ==> Main(n) in w.objects)
    && (u.phase.Ready? && u.room.Some? ==> Thumb(n) in w.objects)
    && (!u.phase.Ended? ==> Main(n) !in w.docs && Thumb(n) !in w.docs)
    && (u.room.Some? && u.room.value in w.rooms ==> RoomIsOfCase(w, u.caseId, u.room.value))
  }

  predicate RoomOk(w: World, r: Id)
    requires r in w.rooms
  {
    w.rooms[r].preferred.Some? ==>
      var d := Main(w.rooms[r].preferred.value);
      d in w.docs && w.docs[d].live && w.docs[d].photo && w.docs[d].room == Some(r)
  }

  predicate Full(w: World, caseId: Id, r: Id) { |Photos(w, caseId, r)| > MAX_PHOTOS }

  ghost predicate Inv(w: World) {
    && (forall d :: d in w.docs ==> RowOk(w, d))
    && (forall n :: n in w.uploads ==> UploadOk(w, n))
    && (forall r :: r in w.rooms ==> RoomOk(w, r))
    && (forall d :: d in w.doomed ==> d in w.docs)
    && (forall c, r :: !Full(w, c, r))
    && (forall a, b :: a in w.cases && b in w.cases && w.cases[a] == w.cases[b] ==> a == b)
  }

  function Start(): World { World({}, map[], map[], map[], map[], {}) }

  function After(w: World, steps: seq<Step>): World
    decreases |steps|
  {
    if steps == [] then w else After(Next(w, steps[0]), steps[1..])
  }

  // A step that gives no (case, room) pair a photo keeps every pair within its limit.
  lemma NoFuller(w: World, v: World)
    requires forall c, r :: !Full(w, c, r)
    requires forall d :: d in v.docs && d.Main? && v.docs[d].live && v.docs[d].photo && v.docs[d].room.Some? ==>
               d in w.docs && w.docs[d] == v.docs[d]
    ensures forall c, r :: !Full(v, c, r)
  {
    forall c, r ensures !Full(v, c, r) {
      assert !Full(w, c, r);
      forall d | d in Photos(v, c, r) ensures d in Photos(w, c, r) { assert v.docs[d].room == Some(r); }
      SubsetIsSmaller(Photos(v, c, r), Photos(w, c, r));
    }
  }

  // Upload n has moved on: only its own phase and objects differ, and its objects do not disappear under its rows.
  ghost predicate MovesOn(w: World, v: World, n: nat) {
    && v.docs == w.docs && v.rooms == w.rooms && v.cases == w.cases && v.doomed == w.doomed
    && n in v.uploads && v.uploads == w.uploads[n := v.uploads[n]]
    && (v.uploads[n].phase.Ended? || (Main(n) !in w.docs && Thumb(n) !in w.docs))
    && (forall d :: d in w.objects && (d.n != n || d in w.docs) ==> d in v.objects)
    && UploadOk(v, n)
  }

  lemma MovingOnKeeps(w: World, v: World, n: nat)
    requires Inv(w) && MovesOn(w, v, n)
    ensures Inv(v)
  {
    hide Photos, Full;
    NoFuller(w, v);
    forall d | d in v.docs ensures RowOk(v, d) { assert RowOk(w, d); }
    forall m | m in v.uploads ensures UploadOk(v, m) {
      if m != n { assert UploadOk(w, m); }
    }
    forall r | r in v.rooms ensures RoomOk(v, r) { assert RoomOk(w, r); }
  }

  predicate IsUploadStep(s: Step) {
    s.Begin? || s.PutObject? || s.PutThumbnail? || s.NoThumbnail? || s.CleanThumbnail? || s.CleanObject? || s.Crash?
  }

  lemma UploadStepMoves(w: World, s: Step)
    requires IsUploadStep(s)
              && (if s.n in w.uploads then UploadOk(w, s.n) else Main(s.n) !in w.docs && Thumb(s.n) !in w.docs)
    ensures Next(w, s) == w || MovesOn(w, Next(w, s), s.n)
  {
    hide Photos;
  }

  lemma UploadStepKeeps(w: World, s: Step)
    requires Inv(w) && IsUploadStep(s)
    ensures Inv(Next(w, s))
  {
    Unregistered(w, s.n);
    hide Inv, Next, MovesOn, UploadOk;
    UploadStepMoves(w, s);
    if Next(w, s) != w { MovingOnKeeps(w, Next(w, s), s.n); }
  }

  lemma Unregistered(w: World, n: nat)
    requires Inv(w)
    ensures if n in w.uploads then UploadOk(w, n) else Main(n) !in w.docs && Thumb(n) !in w.docs
  {
    hide Photos, UploadOk, RoomOk, Full;
    if Main(n) in w.docs { assert RowOk(w, Main(n)); }
    if Thumb(n) in w.docs { assert RowOk(w, Thumb(n)); }
  }

  // What a registration does, seen without the photo counts.
  lemma RegisterIs(w: World, n: nat, ok: bool)
    requires AtPhase(w, n, Ready) && UploadOk(w, n) && CanRegister(w, n, ok)
    ensures var v, u := Next(w, Register(n, ok)), w.uploads[n];
            && v.objects == w.objects && v.rooms == w.rooms && v.cases == w.cases && v.doomed == w.doomed
            && v.uploads == w.uploads[n := u.(phase := Ended)]
            && v.docs.Keys == w.docs.Keys + (if u.room.Some? then {Main(n), Thumb(n)} else {Main(n)})
            && (forall d :: d in w.docs ==> v.docs[d] == w.docs[d])
            && Main(n) !in w.docs && Thumb(n) !in w.docs && v.docs[Main(n)] == Doc(u.caseId, u.room, u.room.Some?, true)
            && (u.room.Some? ==>
                  v.docs[Thumb(n)] == Doc(u.caseId, u.room, false, true) && RoomIsOfCase(w, u.caseId, u.room.value))
  {
    hide Photos;
  }

  lemma RegisteredRows(w: World, n: nat, ok: bool)
    requires Inv(w) && AtPhase(w, n, Ready) && CanRegister(w, n, ok)
    ensures var v := Next(w, Register(n, ok));
            && (forall d :: d in v.docs ==> RowOk(v, d)) && (forall m :: m in v.uploads ==> UploadOk(v, m))
            && (forall r :: r in v.rooms ==> RoomOk(v, r))
  {
    hide Photos, Full, Next, CanRegister;
    var v := Next(w, Register(n, ok));
    assert UploadOk(w, n);
    RegisterIs(w, n, ok);
    forall d | d in v.docs ensures RowOk(v, d) {
      if d in w.docs { assert RowOk(w, d); } else { NotDoomed(w, d); }
    }
    forall m | m in v.uploads ensures UploadOk(v, m) { assert UploadOk(w, m); }
    forall r | r in v.rooms ensures RoomOk(v, r) { assert RoomOk(w, r); }
  }

  lemma NotDoomed(w: World, d: DocId)
    requires Inv(w) && d !in w.docs
    ensures d !in w.doomed
  {
  }

  lemma RegisterAdds(w: World, n: nat, ok: bool, c: Id, r: Id)
    requires AtPhase(w, n, Ready) && UploadOk(w, n) && CanRegister(w, n, ok)
    ensures var v := Next(w, Register(n, ok));
            Photos(v, c, r) == Photos(w, c, r) + if w.uploads[n].caseId == c
                && w.uploads[n].room == Some(r) then {Main(n)} else {}
    ensures Main(n) !in Photos(w, c, r)
  {
    RegisterIs(w, n, ok);
    hide Next, CanRegister, UploadOk;
    var v, u := Next(w, Register(n, ok)), w.uploads[n];
    var added := if u.caseId == c && u.room == Some(r) then {Main(n)} else {};
    forall d ensures d in Photos(v, c, r) <==> d in Photos(w, c, r) || d in added {
      if d in w.docs { assert v.docs[d] == w.docs[d]; }
    }
  }

  lemma RegisterKeepsLimit(w: World, n: nat, ok: bool, c: Id, r: Id)
    requires AtPhase(w, n, Ready) && UploadOk(w, n) && CanRegister(w, n, ok) && !Full(w, c, r)
    ensures !Full(Next(w, Register(n, ok)), c, r)
  {
    RegisterAdds(w, n, ok, c, r);
    hide Next, Photos, UploadOk;
  }

  lemma RegisterKeeps(w: World, n: nat, ok: bool)
    requires Inv(w)
    ensures Inv(Next(w, Register(n, ok)))
  {
    hide RowOk, RoomOk, Photos, Full;
    var v := Next(w, Register(n, ok));
    if AtPhase(w, n, Ready) {
      assert UploadOk(w, n);
      if CanRegister(w, n, ok) {
        RegisteredRows(w, n, ok);
        forall c, r ensures !Full(v, c, r) {
          assert !Full(w, c, r);
          RegisterKeepsLimit(w, n, ok, c, r);
        }
      } else {
        assert MovesOn(w, v, n);
        MovingOnKeeps(w, v, n);
      }
    }
  }

  lemma DeletePhotoKeeps(w: World, c: Id, r: Id, n: nat)
    requires Inv(w)
    ensures Inv(Next(w, DeletePhoto(c, r, n)))
  {
    hide Photos, Full, RoomIsOfCase, UploadOk, RowOk, RoomOk;
    var v := Next(w, DeletePhoto(c, r, n));
    if v != w {
      NoFuller(w, v);
      forall d | d in v.docs ensures RowOk(v, d) { DeletedRowOk(w, c, r, n, d); }
      forall q | q in v.rooms ensures RoomOk(v, q) { DeletedRoomOk(w, c, r, n, q); }
      forall m | m in v.uploads ensures UploadOk(v, m) {
        assert UploadOk(w, m);
        SameUpload(w, v, m);
      }
    }
  }

  lemma DeletedRoomOk(w: World, c: Id, r: Id, n: nat, q: Id)
    requires IsPhotoOf(w, Main(n), c, r) && q in w.rooms && RoomOk(w, q)
    ensures q in Next(w, DeletePhoto(c, r, n)).rooms && RoomOk(Next(w, DeletePhoto(c, r, n)), q)
  {
  }

  lemma DeletedRowOk(w: World, c: Id, r: Id, n: nat, d: DocId)
    requires IsPhotoOf(w, Main(n), c, r) && d in w.docs && RowOk(w, d)
    ensures d in Next(w, DeletePhoto(c, r, n)).docs && RowOk(Next(w, DeletePhoto(c, r, n)), d)
  {
  }

  // An upload is judged by the rooms' properties, the cases, the objects and which rows there are.
  lemma SameUpload(w: World, v: World, m: nat)
    requires m in w.uploads && UploadOk(w, m) && v.uploads == w.uploads && v.docs.Keys == w.docs.Keys
              && v.objects == w.objects && v.cases == w.cases
    requires forall q :: q in v.rooms ==> q in w.rooms && v.rooms[q].property == w.rooms[q].property
    ensures UploadOk(v, m)
  {
  }

  lemma VacatedRowOk(w: World, c: Id, r: Id, d: DocId)
    requires RoomIsOfCase(w, c, r) && d in w.docs && RowOk(w, d)
              && (d.Thumb? ==> Main(d.n) in w.docs && RowOk(w, Main(d.n)))
    ensures d in Next(w, DeleteRoom(c, r)).docs && RowOk(Next(w, DeleteRoom(c, r)), d)
  {
  }

  lemma DeleteRoomKeeps(w: World, c: Id, r: Id)
    requires Inv(w)
    ensures Inv(Next(w, DeleteRoom(c, r)))
  {
    hide Photos, Full, UploadOk, RowOk;
    var v := Next(w, DeleteRoom(c, r));
    if RoomIsOfCase(w, c, r) {
      NoFuller(w, v);
      forall d | d in v.docs ensures RowOk(v, d) {
        ThumbHasMain(w, d);
        VacatedRowOk(w, c, r, d);
      }
      forall q | q in v.rooms ensures RoomOk(v, q) { assert RoomOk(w, q); }
      forall m | m in v.uploads ensures UploadOk(v, m) {
        assert UploadOk(w, m);
        SameUpload(w, v, m);
      }
    }
  }

  lemma ThumbHasMain(w: World, d: DocId)
    requires Inv(w) && d in w.docs
    ensures RowOk(w, d) && (d.Thumb? ==> Main(d.n) in w.docs && RowOk(w, Main(d.n)))
  {
    hide Photos, Full, UploadOk, RoomOk;
  }

  lemma SetRepresentativeKeeps(w: World, c: Id, r: Id, n: nat)
    requires Inv(w)
    ensures Inv(Next(w, SetRepresentative(c, r, n)))
  {
    hide Photos, Full;
    var v := Next(w, SetRepresentative(c, r, n));
    NoFuller(w, v);
    forall d | d in v.docs ensures RowOk(v, d) { assert RowOk(w, d); }
    forall q | q in v.rooms ensures RoomOk(v, q) { assert RoomOk(w, q); }
    forall m | m in v.uploads ensures UploadOk(v, m) {
      assert UploadOk(w, m);
      SameUpload(w, v, m);
    }
  }

  lemma DeleteObjectKeeps(w: World, d: DocId, ok: bool)
    requires Inv(w)
    ensures Inv(Next(w, DeleteObject(d, ok)))
  {
    hide Photos, Full;
    var v := Next(w, DeleteObject(d, ok));
    NoFuller(w, v);
    forall x | x in v.docs ensures RowOk(v, x) { assert RowOk(w, x); }
    forall r | r in v.rooms ensures RoomOk(v, r) { assert RoomOk(w, r); }
    forall m | m in v.uploads ensures UploadOk(v, m) {
      assert UploadOk(w, m);
      if d in w.doomed { assert RowOk(w, d); }
    }
  }

  lemma AddRoomKeeps(w: World, r: Id, property: Id)
    requires Inv(w)
    ensures Inv(Next(w, AddRoom(r, property)))
  {
    hide Photos, Full;
    var v := Next(w, AddRoom(r, property));
    NoFuller(w, v);
    forall d | d in v.docs ensures RowOk(v, d) { assert RowOk(w, d); }
    forall q | q in v.rooms ensures RoomOk(v, q) {
      if q in w.rooms { assert RoomOk(w, q); }
    }
    forall m | m in v.uploads ensures UploadOk(v, m) { assert UploadOk(w, m); }
  }

  lemma AddCaseKeeps(w: World, c: Id, property: Id)
    requires Inv(w)
    ensures Inv(Next(w, AddCase(c, property)))
  {
    hide Photos, Full, RowOk, UploadOk, RoomOk;
    var v := Next(w, AddCase(c, property));
    NoFuller(w, v);
    forall d | d in v.docs ensures RowOk(v, d) {
      assert RowOk(w, d);
      RowWithMoreCases(w, v, d);
    }
    forall q | q in v.rooms ensures RoomOk(v, q) {
      assert RoomOk(w, q);
      SameRoom(w, v, q);
    }
    forall m | m in v.uploads ensures UploadOk(v, m) {
      assert UploadOk(w, m);
      UploadWithMoreCases(w, v, m);
    }
  }

  lemma RowWithMoreCases(w: World, v: World, d: DocId)
    requires d in w.docs && RowOk(w, d) && v == w.(cases := v.cases)
    requires forall x :: x in w.cases ==> x in v.cases && v.cases[x] == w.cases[x]
    ensures RowOk(v, d)
  {
  }

  lemma UploadWithMoreCases(w: World, v: World, m: nat)
    requires m in w.uploads && UploadOk(w, m) && v == w.(cases := v.cases)
    requires forall x :: x in w.cases ==> x in v.cases && v.cases[x] == w.cases[x]
    ensures UploadOk(v, m)
  {
  }

  lemma SameRoom(w: World, v: World, r: Id)
    requires r in w.rooms && RoomOk(w, r) && v.rooms == w.rooms && v.docs == w.docs
    ensures RoomOk(v, r)
  {
  }

  lemma StepKeepsInv(w: World, s: Step)
    requires Inv(w)
    ensures Inv(Next(w, s))
  {
    hide Inv, Next;
    match s
    case Register(n, ok) => RegisterKeeps(w, n, ok);
    case DeletePhoto(c, r, n) => DeletePhotoKeeps(w, c, r, n);
    case DeleteRoom(c, r) => DeleteRoomKeeps(w, c, r);
    case SetRepresentative(c, r, n) => SetRepresentativeKeeps(w, c, r, n);
    case DeleteObject(d, ok) => DeleteObjectKeeps(w, d, ok);
    case AddRoom(r, property) => AddRoomKeeps(w, r, property);
    case AddCase(c, property) => AddCaseKeeps(w, c, property);
    case _ => UploadStepKeeps(w, s);
  }

  lemma {:induction false} EveryRunKeepsInv(w: World, steps: seq<Step>)
    requires Inv(w)
    ensures Inv(After(w, steps))
    decreases |steps|
  {
    hide Inv, Next;
    if steps != [] {
      StepKeepsInv(w, steps[0]);
      EveryRunKeepsInv(Next(w, steps[0]), steps[1..]);
    }
  }

  /** At every point of every run: what the two stores promise each other. */
  lemma StoresAgree(steps: seq<Step>)
    ensures var w := After(Start(), steps);
            && (forall d :: d in w.docs && w.docs[d].live ==> d in w.objects)
            && (forall r :: |RoomPhotos(w, r)| <= 5)
            && (forall n :: Thumb(n) in w.docs && w.docs[Thumb(n)].live ==> Main(n) in w.docs && w.docs[Main(n)].live)
            && (forall r :: r in w.rooms && w.rooms[r].preferred.Some? ==>
                  var d := Main(w.rooms[r].preferred.value);
                  d in w.docs && w.docs[d].live && w.docs[d].photo && w.docs[d].room == Some(r))
  {
    hide After, Photos;
    EmptyIsInv();
    EveryRunKeepsInv(Start(), steps);
    var w := After(Start(), steps);
    forall d | d in w.docs && w.docs[d].live ensures d in w.objects { assert RowOk(w, d); }
    forall r ensures |RoomPhotos(w, r)| <= 5 { RoomLimit(w, r); }
    forall n | Thumb(n) in w.docs && w.docs[Thumb(n)].live ensures Main(n) in w.docs && w.docs[Main(n)].live {
      assert RowOk(w, Thumb(n));
    }
    forall r | r in w.rooms && w.rooms[r].preferred.Some?
      ensures var d := Main(w.rooms[r].preferred.value);
              d in w.docs && w.docs[d].live && w.docs[d].photo && w.docs[d].room == Some(r)
    {
      assert RoomOk(w, r);
    }
  }

  lemma EmptyIsInv()
    ensures Inv(Start())
  {
    forall c, r ensures !Full(Start(), c, r) { assert Photos(Start(), c, r) == {}; }
  }

  // ---- The limit of a room ----

  function RoomPhotos(w: World, r: Id): set<DocId> {
    set d | d in w.docs && d.Main? && w.docs[d].live && w.docs[d].photo && w.docs[d].room == Some(r)
  }

  /**
   * The code counts a case's photos in a room; a property has one case, so no room holds more than
   * five live photos.
   */
  lemma RoomLimit(w: World, r: Id)
    requires Inv(w)
    ensures |RoomPhotos(w, r)| <= 5
  {
    hide Photos, UploadOk, RoomOk;
    if RoomPhotos(w, r) != {} {
      var x :| x in RoomPhotos(w, r);
      assert RowOk(w, x);
      var c := w.docs[x].caseId;
      assert !Full(w, c, r);
      forall d | d in RoomPhotos(w, r) ensures d in Photos(w, c, r) {
        assert RowOk(w, d);
        InPhotos(w, d, c, r);
      }
      SubsetIsSmaller(RoomPhotos(w, r), Photos(w, c, r));
    }
  }

  lemma InPhotos(w: World, d: DocId, c: Id, r: Id)
    requires IsPhotoOf(w, d, c, r)
    ensures d in Photos(w, c, r)
  {
  }

  // ---- What is deleted stays deleted ----

  predicate IsDead(w: World, d: DocId) { d in w.docs && !w.docs[d].live }

  lemma DeadStep(w: World, s: Step, d: DocId)
    requires Inv(w) && IsDead(w, d)
    ensures IsDead(Next(w, s), d)
  {
    hide Photos, Full, RoomOk;
    assert RowOk(w, d);
  }

  lemma {:induction false} DeadStays(w: World, steps: seq<Step>, d: DocId)
    requires Inv(w) && IsDead(w, d)
    ensures IsDead(After(w, steps), d) && Inv(After(w, steps))
    decreases |steps|
  {
    hide Inv, Next, IsDead;
    if steps != [] {
      DeadStep(w, steps[0], d);
      StepKeepsInv(w, steps[0]);
      DeadStays(Next(w, steps[0]), steps[1..], d);
    }
  }

  lemma DeletedNow(w: World, c: Id, r: Id, n: nat)
    requires IsPhotoOf(w, Main(n), c, r)
    ensures var v := Next(w, DeletePhoto(c, r, n));
            && IsDead(v, Main(n)) && (Thumb(n) in w.docs ==> IsDead(v, Thumb(n))) && v.docs.Keys == w.docs.Keys
            && (forall d :: d in w.docs && d.n != n ==> v.docs[d] == w.docs[d])
            && (forall d :: d in v.doomed <==> d in w.doomed || (d in w.docs && d.n == n))
  {
    hide Photos;
  }

  /**
   * A photo that is deleted is gone in every continuation: neither it nor its thumbnail is live again
   * and no room shows it first. Nothing else is touched, and both objects are handed over for removal.
   */
  lemma DeletedPhotoIsGone(w: World, c: Id, r: Id, n: nat, steps: seq<Step>)
    requires Inv(w) && IsPhotoOf(w, Main(n), c, r)
    ensures var now, v := Next(w, DeletePhoto(c, r, n)), After(Next(w, DeletePhoto(c, r, n)), steps);
            && Main(n) in v.docs && !v.docs[Main(n)].live
            && (Thumb(n) in w.docs ==> Thumb(n) in v.docs && !v.docs[Thumb(n)].live)
            && (forall q :: q in v.rooms ==> v.rooms[q].preferred != Some(n))
            && (forall d :: d in w.docs && d.n != n ==> d in now.docs && now.docs[d] == w.docs[d])
            && (forall d :: d in now.doomed <==> d in w.doomed || (d in w.docs && d.n == n))
  {
    hide After, Next, Photos, Full;
    DeletedNow(w, c, r, n);
    StepKeepsInv(w, DeletePhoto(c, r, n));
    var now := Next(w, DeletePhoto(c, r, n));
    DeadStays(now, steps, Main(n));
    if Thumb(n) in w.docs { DeadStays(now, steps, Thumb(n)); }
    var v := After(now, steps);
    forall q | q in v.rooms ensures v.rooms[q].preferred != Some(n) { assert RoomOk(v, q); }
  }

  /** A photo that is made representative is what its room shows first; no other room and no document changes. */
  lemma RepresentativeIs(w: World, c: Id, r: Id, n: nat)
    requires IsPhotoOf(w, Main(n), c, r) && RoomIsOfCase(w, c, r)
    ensures var v := Next(w, SetRepresentative(c, r, n));
            && r in v.rooms && v.rooms[r].preferred == Some(n) && v.rooms[r].property == w.rooms[r].property
            && v == w.(rooms := w.rooms[r := v.rooms[r]])
  {
  }

  /** An object is removed from storage when its removal succeeds and at no other time; either way it is tried once. */
  lemma RemovedIff(w: World, d: DocId, ok: bool)
    requires d in w.doomed
    ensures var v := Next(w, DeleteObject(d, ok));
            (d in v.objects <==> d in w.objects && !ok) && d !in v.doomed && v.docs == w.docs
  {
  }

  /** With its room every document in it is gone in every continuation; documents elsewhere are not touched. */
  lemma DeletedRoomIsGone(w: World, c: Id, r: Id, d: DocId, steps: seq<Step>)
    requires Inv(w) && RoomIsOfCase(w, c, r) && d in w.docs
    ensures var now, v := Next(w, DeleteRoom(c, r)), After(Next(w, DeleteRoom(c, r)), steps);
            && r !in now.rooms && d in now.docs
            && (w.docs[d].room == Some(r) ==> d in v.docs && !v.docs[d].live)
            && (w.docs[d].room != Some(r) ==> now.docs[d] == w.docs[d])
            && (d in now.doomed <==> d in w.doomed || (w.docs[d].live && w.docs[d].room == Some(r)))
  {
    hide After, Photos, Full;
    StepKeepsInv(w, DeleteRoom(c, r));
    assert RowOk(w, d);
    if w.docs[d].room == Some(r) { DeadStays(Next(w, DeleteRoom(c, r)), steps, d); }
  }

  // ---- A room can be filled ----

  function UploadSteps(n: nat, c: Id, r: Id): seq<Step> {
    [Begin(n, c, Some(r)), PutObject(n, Written), PutThumbnail(n, Written), Register(n, true)]
  }

  lemma AfterConcat(w: World, a: seq<Step>, b: seq<Step>)
    ensures After(w, a + b) == After(After(w, a), b)
    decreases |a|
  {
    hide Next;
    if a == [] {
      assert a + b == b;
    } else {
      assert (a + b)[1..] == a[1..] + b;
      AfterConcat(Next(w, a[0]), a[1..], b);
    }
  }

  // The world just before an undisturbed upload registers its photo.
  lemma UploadIsReady(w: World, n: nat, c: Id, r: Id)
    requires CanBegin(w, n, c, Some(r))
    ensures After(w, UploadSteps(n, c, r)) == Next(ReadyUpload(w, n, c, r), Register(n, true))
  {
    hide Photos;
    var steps := UploadSteps(n, c, r);
    var w1 := w.(uploads := w.uploads[n := Upload(c, Some(r), Received)]);
    var w2 := w.(objects := w.objects + {Main(n)}, uploads := w.uploads[n := Upload(c, Some(r), Stored)]);
    var w3 := ReadyUpload(w, n, c, r);
    assert Next(w, steps[0]) == w1;
    assert w1.uploads[n := Upload(c, Some(r), Stored)] == w2.uploads;
    assert Next(w1, steps[1]) == w2;
    assert w2.uploads[n := Upload(c, Some(r), Ready)] == w3.uploads;
    assert Next(w2, steps[2]) == w3;
    hide Next;
    assert After(w, steps) == After(w1, steps[1..]);
    assert steps[1..][1..] == steps[2..] && steps[2..][1..] == steps[3..] && steps[3..][1..] == [];
    assert After(w1, steps[1..]) == After(w2, steps[2..]);
    assert After(w2, steps[2..]) == After(w3, steps[3..]);
    assert After(w3, steps[3..]) == After(Next(w3, steps[3]), []);
  }

  function ReadyUpload(w: World, n: nat, c: Id, r: Id): World {
    w.(objects := w.objects + {Main(n)} + {Thumb(n)}, uploads := w.uploads[n := Upload(c, Some(r), Ready)])
  }

  lemma ReadyCanRegister(w: World, n: nat, c: Id, r: Id)
    requires Inv(w) && CanBegin(w, n, c, Some(r))
    ensures var u := ReadyUpload(w, n, c, r);
            AtPhase(u, n, Ready) && UploadOk(u, n) && CanRegister(u, n, true)
                && forall x :: Photos(u, x, r) == Photos(w, x, r)
  {
    Unregistered(w, n);
    hide Inv, RowOk, RoomOk;
    forall x ensures Photos(ReadyUpload(w, n, c, r), x, r) == Photos(w, x, r) { }
  }

  lemma UploadAddsPhoto(w: World, n: nat, c: Id, r: Id)
    requires Inv(w) && CanBegin(w, n, c, Some(r))
    ensures var v := After(w, UploadSteps(n, c, r));
            && Inv(v) && v.rooms == w.rooms && v.cases == w.cases && v.uploads.Keys == w.uploads.Keys + {n}
            && |Photos(v, c, r)| == |Photos(w, c, r)| + 1
            && forall x :: x != c ==> Photos(v, x, r) == Photos(w, x, r)
  {
    hide Inv, After, Next, Photos, UploadOk, CanRegister, CanBegin;
    EveryRunKeepsInv(w, UploadSteps(n, c, r));
    UploadIsReady(w, n, c, r);
    ReadyCanRegister(w, n, c, r);
    var u := ReadyUpload(w, n, c, r);
    var v := Next(u, Register(n, true));
    RegisterIs(u, n, true);
    RegisterAdds(u, n, true, c, r);
    forall x | x != c ensures Photos(v, x, r) == Photos(w, x, r) { RegisterAdds(u, n, true, x, r); }
  }

  /** The limit is reached: undisturbed uploads put k more photos into a room that has space for them. */
  lemma {:induction false} Fill(w: World, n: nat, k: nat, c: Id, r: Id) returns (steps: seq<Step>)
    requires Inv(w) && RoomIsOfCase(w, c, r) && |Photos(w, c, r)| + k <= MAX_PHOTOS
    requires forall m :: m in w.uploads ==> m < n
    ensures var v := After(w, steps);
            && Inv(v) && v.rooms == w.rooms && v.cases == w.cases && (forall m :: m in v.uploads ==> m < n + k)
            && |Photos(v, c, r)| == |Photos(w, c, r)| + k
            && forall x :: x != c ==> Photos(v, x, r) == Photos(w, x, r)
    decreases k
  {
    hide Inv, Photos, Next;
    if k == 0 {
      steps := [];
    } else {
      UploadAddsPhoto(w, n, c, r);
      var v := After(w, UploadSteps(n, c, r));
      var rest := Fill(v, n + 1, k - 1, c, r);
      steps := UploadSteps(n, c, r) + rest;
      AfterConcat(w, UploadSteps(n, c, r), rest);
    }
  }
}
