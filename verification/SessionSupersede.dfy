/** Which of a device's sessions a login ceremony revokes, and what overlapping ceremonies leave behind. */
module SessionSupersede {
  import opened Base

  datatype Level = DeviceBiometric | OtherLevel

  /** A time is None when the stored value is not a finite instant; it then counts as minus infinity. */
  datatype Session = Session(id: Text, jkt: Option<Text>, level: Level, createdAt: Option<int>, expiresAt: Option<int>)

  predicate IsNewer(a: Session, b: Session) {
    if a.createdAt != b.createdAt then a.createdAt.Some? && (b.createdAt.None? || a.createdAt.value > b.createdAt.value)
    else Less(b.id, a.id)
  }

  predicate HasExpired(expiresAt: Option<int>, now: int) { expiresAt.Some? && expiresAt.value <= now }

  predicate IsCandidate(s: Session, jkt: Text, now: int) {
    s.level.DeviceBiometric? && s.jkt == Some(jkt) && !HasExpired(s.expiresAt, now)
  }

  function Candidates(sessions: seq<Session>, jkt: Text, now: int): (r: seq<Session>)
    ensures forall s :: s in r <==> s in sessions && IsCandidate(s, jkt, now)
  {
    if sessions == [] then []
    else (if IsCandidate(sessions[0], jkt, now) then [sessions[0]] else []) + Candidates(sessions[1..], jkt, now)
  }

  /** The position of the session a left fold with IsNewer keeps. */
  function NewestIndex(sessions: seq<Session>): (i: nat)
    requires sessions != []
    ensures i < |sessions|
  {
    if |sessions| == 1 then 0
    else
      var kept := NewestIndex(sessions[..|sessions| - 1]);
      if IsNewer(sessions[|sessions| - 1], sessions[kept]) then |sessions| - 1 else kept
  }

  function SessionsToSupersede(sessions: seq<Session>, jkt: Text, now: int): seq<Session> {
    var candidates := Candidates(sessions, jkt, now);
    if |candidates| <= 1 then []
    else AllButNewest(candidates)
  }

  // ---- The order and the selection ----

  lemma NewerIsTotal(a: Session, b: Session)
    ensures a.id != b.id ==> IsNewer(a, b) || IsNewer(b, a)
    ensures !(IsNewer(a, b) && IsNewer(b, a))
  {
    LessIsTotal(a.id, b.id);
    if Less(a.id, b.id) { LessIsAsymmetric(a.id, b.id); }
  }

  lemma NewerIsTransitive(a: Session, b: Session, c: Session)
    requires IsNewer(a, b) && IsNewer(b, c)
    ensures IsNewer(a, c)
  {
    if a.createdAt == b.createdAt == c.createdAt { LessIsTransitive(c.id, b.id, a.id); }
  }

  predicate DistinctIds(sessions: seq<Session>) {
    forall i, j :: 0 <= i < j < |sessions| ==> sessions[i].id != sessions[j].id
  }

  lemma {:induction false} NewestBeatsAll(sessions: seq<Session>, k: nat)
    requires sessions != [] && DistinctIds(sessions) && k < |sessions|
    ensures k == NewestIndex(sessions) || IsNewer(sessions[NewestIndex(sessions)], sessions[k])
  {
    if |sessions| > 1 {
      var front, last := sessions[..|sessions| - 1], sessions[|sessions| - 1];
      var kept := NewestIndex(front);
      NewerIsTotal(front[kept], last);
      if k < |front| {
        NewestBeatsAll(front, k);
        if IsNewer(last, front[kept]) && k != kept { NewerIsTransitive(last, front[kept], front[k]); }
      }
    }
  }

  lemma {:induction false} CandidatesKeepDistinct(sessions: seq<Session>, jkt: Text, now: int)
    requires DistinctIds(sessions)
    ensures DistinctIds(Candidates(sessions, jkt, now))
  {
    if sessions != [] {
      var rest := Candidates(sessions[1..], jkt, now);
      CandidatesKeepDistinct(sessions[1..], jkt, now);
      forall j | 0 <= j < |rest| ensures rest[j].id != sessions[0].id {
        assert rest[j] in sessions[1..];
      }
    }
  }

  function AllButNewest(c: seq<Session>): seq<Session>
    requires c != []
  {
    c[..NewestIndex(c)] + c[NewestIndex(c) + 1..]
  }

  lemma LeftOutIsOutdone(c: seq<Session>, s: Session)
    requires c != [] && DistinctIds(c) && s in AllButNewest(c)
    ensures s in c && IsNewer(c[NewestIndex(c)], s)
  {
    hide IsNewer, NewestIndex;
    var i, rest := NewestIndex(c), AllButNewest(c);
    var k :| 0 <= k < |rest| && rest[k] == s;
    var j := if k < i then k else k + 1;
    assert c[j] == s && j != i;
    NewestBeatsAll(c, j);
  }

  lemma OutdoneIsLeftOut(c: seq<Session>, s: Session, t: Session)
    requires c != [] && DistinctIds(c) && s in c && t in c && IsNewer(t, s)
    ensures s in AllButNewest(c)
  {
    hide IsNewer, NewestIndex;
    var i, rest := NewestIndex(c), AllButNewest(c);
    var j :| 0 <= j < |c| && c[j] == s;
    var m :| 0 <= m < |c| && c[m] == t;
    NewestBeatsAll(c, m);
    NewerIsTotal(t, s);
    assert j != i;
    assert s == rest[if j < i then j else j - 1];
  }

  /** A session is revoked exactly when it is a candidate and another candidate is newer. */
  lemma SupersededIff(sessions: seq<Session>, jkt: Text, now: int, s: Session)
    requires DistinctIds(sessions)
    ensures s in SessionsToSupersede(sessions, jkt, now) <==>
            && s in sessions && IsCandidate(s, jkt, now)
            && exists t :: t in sessions && IsCandidate(t, jkt, now) && IsNewer(t, s)
  {
    hide IsNewer, IsCandidate, NewestIndex, DistinctIds;
    var c := Candidates(sessions, jkt, now);
    CandidatesKeepDistinct(sessions, jkt, now);
    if s in SessionsToSupersede(sessions, jkt, now) {
      LeftOutIsOutdone(c, s);
      assert c[NewestIndex(c)] in c;
    } else if s in c && exists t :: t in c && IsNewer(t, s) {
      var t :| t in c && IsNewer(t, s);
      OutdoneIsLeftOut(c, s, t);
      NewerIsTotal(s, s);
    }
  }

  // ---- The selection, field by field ----

  /** A device session of the key that has no expiry or one still ahead. */
  predicate IsOpen(s: Session, jkt: Text, now: int) {
    s.level == DeviceBiometric && s.jkt == Some(jkt) && (s.expiresAt == None || s.expiresAt.value > now)
  }

  /** Created later, an unreadable time counting as the earliest; at the same time, with the greater id. */
  predicate IsLater(a: Session, b: Session) {
    match (a.createdAt, b.createdAt)
    case (Some(x), Some(y)) => x > y || (x == y && Less(b.id, a.id))
    case (Some(_), None) => true
    case (None, Some(_)) => false
    case (None, None) => Less(b.id, a.id)
  }

  /** The latest of the key's open sessions in a set. */
  ghost predicate IsLatestOf(sessions: set<Session>, jkt: Text, now: int, n: Session) {
    n in sessions && IsOpen(n, jkt, now) && forall x :: x in sessions && IsOpen(x, jkt, now) ==> x == n || IsLater(n, x)
  }

  lemma CandidateIsOpen(s: Session, jkt: Text, now: int)
    ensures IsCandidate(s, jkt, now) <==> IsOpen(s, jkt, now)
  {
  }

  lemma NewerIsLater(a: Session, b: Session)
    ensures IsNewer(a, b) <==> IsLater(a, b)
  {
  }

  /** An open session of the key is revoked exactly when a later open one is listed, and nothing else is revoked. */
  lemma RevokedIffLaterListed(sessions: seq<Session>, jkt: Text, now: int, s: Session)
    requires DistinctIds(sessions)
    ensures s in SessionsToSupersede(sessions, jkt, now) <==>
            && s in sessions && IsOpen(s, jkt, now)
            && exists t :: t in sessions && IsOpen(t, jkt, now) && IsLater(t, s)
  {
    hide IsNewer, IsLater, IsCandidate, IsOpen, SessionsToSupersede, DistinctIds;
    SupersededIff(sessions, jkt, now, s);
    CandidateIsOpen(s, jkt, now);
    forall t ensures IsCandidate(t, jkt, now) == IsOpen(t, jkt, now) && IsNewer(t, s) == IsLater(t, s) {
      CandidateIsOpen(t, jkt, now);
      NewerIsLater(t, s);
    }
  }

  /** The one open session that is kept was created no earlier than any other. */
  lemma KeptIsLatest(sessions: seq<Session>, jkt: Text, now: int, k: Session)
    requires DistinctIds(sessions) && k in sessions && IsOpen(k, jkt, now)
    requires k !in SessionsToSupersede(sessions, jkt, now)
    ensures forall x :: x in sessions && IsOpen(x, jkt, now) && x.createdAt.Some? ==>
              k.createdAt.Some? && x.createdAt.value <= k.createdAt.value
  {
    hide IsOpen, SessionsToSupersede, DistinctIds;
    RevokedIffLaterListed(sessions, jkt, now, k);
    forall x | x in sessions && IsOpen(x, jkt, now) && x.createdAt.Some?
      ensures k.createdAt.Some? && x.createdAt.value <= k.createdAt.value
    {
      assert !IsLater(x, k);
    }
  }

  // ---- Overlapping ceremonies ----

  datatype Phase = Waiting | Inserted | Revoking(queue: seq<Session>) | Finished | Discarded

  /**
   * One ceremony: it inserts its session, lists the user's sessions, and revokes what the list
   * supersedes one by one. One that fails after its insert discards its own session instead.
   */
  datatype Ceremony = Ceremony(session: Session, jkt: Text, phase: Phase)

  /** The live sessions, every session there ever was, and the ceremonies. */
  datatype World = World(live: set<Session>, ever: set<Session>, ceremonies: map<nat, Ceremony>)

  datatype Step =
    | Insert(c: nat)
    | List(c: nat, view: seq<Session>, now: int)
    | Revoke(c: nat)
    | Finish(c: nat)
    | Discard(c: nat)
    | Unrelated(added: set<Session>, removed: set<Session>)

  /** The device key under study and the span of clock readings of the run, in which no session of that key expires. */
  datatype Frame = Frame(jkt: Text, from: int, to: int)

  predicate IsLive(f: Frame, s: Session) { IsCandidate(s, f.jkt, f.from) }

  ghost predicate Lists(view: seq<Session>, live: set<Session>) {
    DistinctIds(view) && forall s :: s in view <==> s in live
  }

  ghost predicate Enabled(f: Frame, w: World, s: Step) {
    match s
    case Insert(c) => c in w.ceremonies && w.ceremonies[c].phase.Waiting?
    case List(c, view, now) =>
      c in w.ceremonies && w.ceremonies[c].phase.Inserted? && Lists(view, w.live) && f.from <= now <= f.to
    case Revoke(c) => c in w.ceremonies && w.ceremonies[c].phase.Revoking? && w.ceremonies[c].phase.queue != []
    case Finish(c) => c in w.ceremonies && w.ceremonies[c].phase == Revoking([])
    case Discard(c) => c in w.ceremonies && w.ceremonies[c].phase.Inserted?
    case Unrelated(added, removed) =>
      && (forall x :: x in added || x in removed ==> !IsLive(f, x))
      && (forall x, y :: x in added && y in w.ever + added && x != y ==> x.id != y.id)
      && (forall x :: x in added ==> x !in w.ever && Steady(f, x))
      && (forall x, c :: x in added && c in w.ceremonies ==> x.id != w.ceremonies[c].session.id)
  }

  function To(w: World, c: nat, p: Phase): map<nat, Ceremony>
    requires c in w.ceremonies
  {
    w.ceremonies[c := w.ceremonies[c].(phase := p)]
  }

  ghost function Next(w: World, s: Step): World
    requires !s.Unrelated? ==> s.c in w.ceremonies
    requires s.Revoke? ==> w.ceremonies[s.c].phase.Revoking? && w.ceremonies[s.c].phase.queue != []
  {
    match s
    case Insert(c) =>
      var x := w.ceremonies[c].session;
      World(w.live + {x}, w.ever + {x}, To(w, c, Inserted))
    case List(c, view, now) =>
      w.(ceremonies := To(w, c, Revoking(SessionsToSupersede(view, w.ceremonies[c].jkt, now))))
    case Revoke(c) =>
      var queue := w.ceremonies[c].phase.queue;
      w.(live := w.live - {queue[0]}, ceremonies := To(w, c, Revoking(queue[1..])))
    case Finish(c) => w.(ceremonies := To(w, c, Finished))
    case Discard(c) => w.(live := w.live - {w.ceremonies[c].session}, ceremonies := To(w, c, Discarded))
    case Unrelated(added, removed) => w.(live := (w.live + added) - removed, ever := w.ever + added)
  }

  predicate Steady(f: Frame, s: Session) {
    HasExpired(s.expiresAt, f.from) == HasExpired(s.expiresAt, f.to)
  }

  /** The newest session of the key there ever was. */
  ghost predicate IsTop(f: Frame, w: World, n: Session) {
    n in w.ever && IsLive(f, n) && forall x :: x in w.ever && IsLive(f, x) ==> x == n || IsNewer(n, x)
  }

  lemma TopIsLatest(f: Frame, w: World, n: Session)
    ensures IsTop(f, w, n) <==> IsLatestOf(w.ever, f.jkt, f.from, n)
  {
    hide IsNewer, IsLater, IsCandidate, IsOpen;
    CandidateIsOpen(n, f.jkt, f.from);
    forall x ensures IsCandidate(x, f.jkt, f.from) == IsOpen(x, f.jkt, f.from) && IsNewer(n, x) == IsLater(n, x) {
      CandidateIsOpen(x, f.jkt, f.from);
      NewerIsLater(n, x);
    }
  }

  ghost predicate WasDiscarded(w: World, s: Session) {
    exists c :: c in w.ceremonies && w.ceremonies[c].phase.Discarded? && w.ceremonies[c].session == s
  }

  // A ceremony that has not inserted yet will insert a new session of its own key; one that has, has its session on
  // record.
  ghost predicate CeremonyOk(f: Frame, w: World, x: Ceremony) {
    && x.session.level.DeviceBiometric? && x.session.jkt == Some(x.jkt)
    && Steady(f, x.session) && !HasExpired(x.session.expiresAt, f.from)
    && (if x.phase.Waiting? then forall e :: e in w.ever ==> e.id != x.session.id else x.session in w.ever)
    && (x.phase.Discarded? ==> x.session !in w.live)
  }

  // What a ceremony is about to revoke is of its own key and has been outdone.
  ghost predicate QueueOk(f: Frame, w: World, x: Ceremony) {
    x.phase.Revoking? ==> forall q :: q in x.phase.queue ==> IsOutdone(f, w, x.jkt, q)
  }

  ghost predicate IsOutdone(f: Frame, w: World, jkt: Text, q: Session) {
    && q.level.DeviceBiometric? && q.jkt == Some(jkt)
    && exists t :: t in w.ever && t.jkt == q.jkt && IsNewer(t, q) && (IsLive(f, q) ==> IsLive(f, t))
  }

  predicate HasListed(x: Ceremony) { x.phase.Revoking? || x.phase.Finished? }

  ghost predicate NobodyListed(f: Frame, w: World) {
    forall c :: c in w.ceremonies && w.ceremonies[c].jkt == f.jkt ==> !HasListed(w.ceremonies[c])
  }

  /** Of two live sessions the older one is on its way out, or the ceremony of one of them has yet to list. */
  ghost predicate Covered(f: Frame, w: World, x: Session, y: Session) {
    exists c :: c in w.ceremonies && w.ceremonies[c].jkt == f.jkt && Covers(w.ceremonies[c], x, y)
  }

  predicate Covers(k: Ceremony, x: Session, y: Session) {
    || (k.phase.Revoking? && x in k.phase.queue)
    || (k.phase.Inserted? && (k.session == x || k.session == y))
  }

  ghost predicate PairsCovered(f: Frame, w: World) {
    NobodyListed(f, w) ||
    forall x, y :: x in w.live && IsLive(f, x) && y in w.live && IsLive(f, y) && IsNewer(y, x) ==> Covered(f, w, x, y)
  }

  // What does not depend on who covers whom.
  ghost predicate Sound(f: Frame, w: World) {
    && f.from <= f.to && w.live <= w.ever
    && (forall x, y :: x in w.ever && y in w.ever && x != y ==> x.id != y.id)
    && (forall x :: x in w.ever ==> Steady(f, x))
    && (forall c :: c in w.ceremonies ==> CeremonyOk(f, w, w.ceremonies[c]) && QueueOk(f, w, w.ceremonies[c]))
    && (forall c, d :: c in w.ceremonies && d in w.ceremonies && c != d ==>
          w.ceremonies[c].session.id != w.ceremonies[d].session.id)
    && (forall n :: IsTop(f, w, n) && !WasDiscarded(w, n) ==> n in w.live)
  }

  ghost predicate Inv(f: Frame, w: World) { Sound(f, w) && PairsCovered(f, w) }

  // ---- Every step keeps the invariant ----

  lemma InsertIsSound(f: Frame, w: World, c: nat)
    requires Sound(f, w) && Enabled(f, w, Insert(c))
    ensures Sound(f, Next(w, Insert(c)))
  {
    hide IsNewer, IsOutdone, IsLive, Steady;
    var v := Next(w, Insert(c));
    forall d | d in v.ceremonies ensures CeremonyOk(f, v, v.ceremonies[d]) && QueueOk(f, v, v.ceremonies[d]) {
      assert CeremonyOk(f, w, w.ceremonies[d]) && QueueOk(f, w, w.ceremonies[d]);
      StillOutdone(f, w, v, v.ceremonies[d]);
    }
    forall n | IsTop(f, v, n) && !WasDiscarded(v, n) ensures n in v.live {
      if n != w.ceremonies[c].session {
        assert IsTop(f, w, n);
        NotDiscardedBefore(w, v, c, n);
      }
    }
  }

  // What has been outdone stays outdone, whatever joins the record.
  lemma StillOutdone(f: Frame, w: World, v: World, x: Ceremony)
    requires w.ever <= v.ever && (QueueOk(f, w, x) || !x.phase.Revoking?)
    ensures QueueOk(f, v, x)
  {
    hide IsNewer, IsLive;
  }

  lemma NotDiscardedBefore(w: World, v: World, c: nat, n: Session)
    requires c in w.ceremonies && v.ceremonies.Keys == w.ceremonies.Keys && !WasDiscarded(v, n)
    requires forall d :: d in w.ceremonies && d != c ==> v.ceremonies[d] == w.ceremonies[d]
    requires !w.ceremonies[c].phase.Discarded?
    ensures !WasDiscarded(w, n)
  {
  }

  lemma ListIsSound(f: Frame, w: World, c: nat, view: seq<Session>, now: int)
    requires Sound(f, w) && Enabled(f, w, List(c, view, now))
    ensures Sound(f, Next(w, List(c, view, now)))
  {
    hide IsNewer, SessionsToSupersede, Lists, IsLive, Steady, IsOutdone;
    var v, x := Next(w, List(c, view, now)), w.ceremonies[c];
    forall q | q in v.ceremonies[c].phase.queue ensures IsOutdone(f, v, x.jkt, q) {
      QueuedIsOutdone(f, w, c, view, now, q);
    }
    assert forall n :: IsTop(f, v, n) <==> IsTop(f, w, n);
    forall d | d in v.ceremonies ensures CeremonyOk(f, v, v.ceremonies[d]) && QueueOk(f, v, v.ceremonies[d]) {
      assert CeremonyOk(f, w, w.ceremonies[d]);
      if d != c { StillOutdone(f, w, v, w.ceremonies[d]); }
    }
    forall n | IsTop(f, v, n) && !WasDiscarded(v, n) ensures n in v.live { NotDiscardedBefore(w, v, c, n); }
  }

  lemma QueuedIsOutdone(f: Frame, w: World, c: nat, view: seq<Session>, now: int, q: Session)
    requires Sound(f, w) && Enabled(f, w, List(c, view, now))
              && q in SessionsToSupersede(view, w.ceremonies[c].jkt, now)
    ensures IsOutdone(f, w, w.ceremonies[c].jkt, q) && IsOutdone(f, Next(w, List(c, view, now)), w.ceremonies[c].jkt, q)
  {
    hide IsNewer, SessionsToSupersede, DistinctIds, QueueOk, CeremonyOk, WasDiscarded;
    var jkt := w.ceremonies[c].jkt;
    SupersededIff(view, jkt, now, q);
    var t :| t in view && IsCandidate(t, jkt, now) && IsNewer(t, q);
    assert t in w.live;
    assert t in w.ever && Steady(f, t);
  }

  // A ceremony of the key that lists queues the older of any two live sessions.
  lemma ListQueues(f: Frame, w: World, c: nat, view: seq<Session>, now: int, x: Session, y: Session)
    requires Sound(f, w) && Enabled(f, w, List(c, view, now))
    requires x in w.live && IsLive(f, x) && y in w.live && IsLive(f, y) && IsNewer(y, x)
    ensures x in SessionsToSupersede(view, f.jkt, now)
  {
    hide IsNewer, SessionsToSupersede, DistinctIds, QueueOk, CeremonyOk, WasDiscarded;
    assert Steady(f, x) && Steady(f, y);
    SupersededIff(view, f.jkt, now, x);
  }

  // What a ceremony revokes next is never the newest session.
  lemma RevokeSparesTop(f: Frame, w: World, c: nat)
    requires Sound(f, w) && Enabled(f, w, Revoke(c))
    ensures !IsTop(f, w, w.ceremonies[c].phase.queue[0])
  {
    hide IsNewer, CeremonyOk, WasDiscarded;
    var x := w.ceremonies[c];
    var q := x.phase.queue[0];
    assert QueueOk(f, w, x) && q in x.phase.queue;
    var t :| t in w.ever && t.jkt == q.jkt && IsNewer(t, q) && (IsLive(f, q) ==> IsLive(f, t));
    NewerIsTotal(t, q);
  }

  lemma RevokeIsSound(f: Frame, w: World, c: nat)
    requires Sound(f, w) && Enabled(f, w, Revoke(c))
    ensures Sound(f, Next(w, Revoke(c)))
  {
    hide IsNewer, IsLive, Steady, IsOutdone;
    var v := Next(w, Revoke(c));
    RevokeSparesTop(f, w, c);
    assert forall n :: IsTop(f, v, n) <==> IsTop(f, w, n);
    assert forall q :: q in v.ceremonies[c].phase.queue ==> q in w.ceremonies[c].phase.queue;
    forall d | d in v.ceremonies ensures CeremonyOk(f, v, v.ceremonies[d]) && QueueOk(f, v, v.ceremonies[d]) {
      assert CeremonyOk(f, w, w.ceremonies[d]) && QueueOk(f, w, w.ceremonies[d]);
      StillOutdone(f, w, v, w.ceremonies[d]);
    }
    forall n | IsTop(f, v, n) && !WasDiscarded(v, n) ensures n in v.live { NotDiscardedBefore(w, v, c, n); }
  }

  lemma FinishIsSound(f: Frame, w: World, c: nat)
    requires Sound(f, w) && Enabled(f, w, Finish(c))
    ensures Sound(f, Next(w, Finish(c)))
  {
    hide IsNewer, IsLive, Steady, IsOutdone;
    var v := Next(w, Finish(c));
    assert forall n :: IsTop(f, v, n) <==> IsTop(f, w, n);
    forall d | d in v.ceremonies ensures CeremonyOk(f, v, v.ceremonies[d]) && QueueOk(f, v, v.ceremonies[d]) {
      assert CeremonyOk(f, w, w.ceremonies[d]) && QueueOk(f, w, w.ceremonies[d]);
      StillOutdone(f, w, v, w.ceremonies[d]);
    }
    forall n | IsTop(f, v, n) && !WasDiscarded(v, n) ensures n in v.live { NotDiscardedBefore(w, v, c, n); }
  }

  lemma DiscardIsSound(f: Frame, w: World, c: nat)
    requires Sound(f, w) && Enabled(f, w, Discard(c))
    ensures Sound(f, Next(w, Discard(c)))
  {
    hide IsNewer, IsLive, Steady, IsOutdone;
    var v := Next(w, Discard(c));
    assert forall n :: IsTop(f, v, n) <==> IsTop(f, w, n);
    forall d | d in v.ceremonies ensures CeremonyOk(f, v, v.ceremonies[d]) && QueueOk(f, v, v.ceremonies[d]) {
      assert CeremonyOk(f, w, w.ceremonies[d]) && QueueOk(f, w, w.ceremonies[d]);
      StillOutdone(f, w, v, w.ceremonies[d]);
    }
    forall n | IsTop(f, v, n) && !WasDiscarded(v, n) ensures n in v.live {
      NotDiscardedBefore(w, v, c, n);
      assert v.ceremonies[c].phase.Discarded? && v.ceremonies[c].session == w.ceremonies[c].session;
    }
  }

  lemma UnrelatedIsSound(f: Frame, w: World, added: set<Session>, removed: set<Session>)
    requires Sound(f, w) && Enabled(f, w, Unrelated(added, removed))
    ensures Sound(f, Next(w, Unrelated(added, removed)))
  {
    hide IsNewer, Steady, IsOutdone;
    var v := Next(w, Unrelated(added, removed));
    assert forall n :: IsTop(f, v, n) <==> IsTop(f, w, n);
    assert forall n :: WasDiscarded(v, n) <==> WasDiscarded(w, n);
    forall d | d in v.ceremonies ensures CeremonyOk(f, v, v.ceremonies[d]) && QueueOk(f, v, v.ceremonies[d]) {
      assert CeremonyOk(f, w, w.ceremonies[d]) && QueueOk(f, w, w.ceremonies[d]);
      StillOutdone(f, w, v, w.ceremonies[d]);
    }
  }

  lemma StepIsSound(f: Frame, w: World, s: Step)
    requires Sound(f, w) && Enabled(f, w, s)
    ensures Sound(f, Next(w, s))
  {
    hide Sound, Next;
    match s
    case Insert(c) => InsertIsSound(f, w, c);
    case List(c, view, now) => ListIsSound(f, w, c, view, now);
    case Revoke(c) => RevokeIsSound(f, w, c);
    case Finish(c) => FinishIsSound(f, w, c);
    case Discard(c) => DiscardIsSound(f, w, c);
    case Unrelated(added, removed) => UnrelatedIsSound(f, w, added, removed);
  }

  // A pair that is covered before a step, and whose sessions both live on, is covered after it.
  lemma PairStep(f: Frame, w: World, s: Step, x: Session, y: Session)
    requires Enabled(f, w, s) && Covered(f, w, x, y)
    requires var v := Next(w, s); x in v.live && y in v.live
    requires !s.List? || w.ceremonies[s.c].jkt != f.jkt
    ensures Covered(f, Next(w, s), x, y)
  {
    hide IsLive, Steady, SessionsToSupersede;
    var v := Next(w, s);
    var c :| c in w.ceremonies && w.ceremonies[c].jkt == f.jkt && Covers(w.ceremonies[c], x, y);
    assert Covers(v.ceremonies[c], x, y);
  }

  lemma PairsStep(f: Frame, w: World, s: Step)
    requires Inv(f, w) && Enabled(f, w, s)
    ensures PairsCovered(f, Next(w, s))
  {
    hide Sound, IsLive, IsNewer, Lists, Covered, SessionsToSupersede, Next;
    if s.List? && w.ceremonies[s.c].jkt == f.jkt {
      PairsOfList(f, w, s.c, s.view, s.now);
    } else if s.Insert? {
      PairsOfInsert(f, w, s.c);
    } else {
      PairsOfOther(f, w, s);
    }
  }

  lemma PairsOfList(f: Frame, w: World, c: nat, view: seq<Session>, now: int)
    requires Sound(f, w) && Enabled(f, w, List(c, view, now)) && w.ceremonies[c].jkt == f.jkt
    ensures PairsCovered(f, Next(w, List(c, view, now)))
  {
    hide Sound, IsLive, IsNewer, SessionsToSupersede, NobodyListed;
    var v := Next(w, List(c, view, now));
    forall x, y | x in v.live && IsLive(f, x) && y in v.live && IsLive(f, y) && IsNewer(y, x)
        ensures Covered(f, v, x, y) {
      ListQueues(f, w, c, view, now, x, y);
      assert Covers(v.ceremonies[c], x, y);
    }
  }

  lemma PairsOfInsert(f: Frame, w: World, c: nat)
    requires Inv(f, w) && Enabled(f, w, Insert(c))
    ensures PairsCovered(f, Next(w, Insert(c)))
  {
    hide IsNewer, QueueOk, IsTop, WasDiscarded;
    var v, z := Next(w, Insert(c)), w.ceremonies[c].session;
    if !NobodyListed(f, w) {
      forall x, y | x in v.live && IsLive(f, x) && y in v.live && IsLive(f, y) && IsNewer(y, x)
          ensures Covered(f, v, x, y) {
        if x == z || y == z {
          assert CeremonyOk(f, w, w.ceremonies[c]);
          assert v.ceremonies[c].jkt == f.jkt && Covers(v.ceremonies[c], x, y);
        } else {
          assert Covered(f, w, x, y);
          PairStep(f, w, Insert(c), x, y);
        }
      }
    }
  }

  lemma PairsOfOther(f: Frame, w: World, s: Step)
    requires Inv(f, w) && Enabled(f, w, s) && !s.Insert? && (s.List? ==> w.ceremonies[s.c].jkt != f.jkt)
    ensures PairsCovered(f, Next(w, s))
  {
    hide Sound, IsNewer, Covered, SessionsToSupersede;
    var v := Next(w, s);
    if NobodyListed(f, w) {
      assert NobodyListed(f, v);
    } else {
      forall x, y | x in v.live && IsLive(f, x) && y in v.live && IsLive(f, y) && IsNewer(y, x)
          ensures Covered(f, v, x, y) {
        assert x in w.live && y in w.live;
        PairStep(f, w, s, x, y);
      }
    }
  }

  lemma StepKeeps(f: Frame, w: World, s: Step)
    requires Inv(f, w) && Enabled(f, w, s)
    ensures Inv(f, Next(w, s))
    ensures w.ever <= Next(w, s).ever && Next(w, s).ceremonies.Keys == w.ceremonies.Keys
    ensures forall c :: c in w.ceremonies ==> Next(w, s).ceremonies[c].jkt == w.ceremonies[c].jkt
    ensures forall n :: WasDiscarded(w, n) ==> WasDiscarded(Next(w, s), n)
  {
    hide Sound, PairsCovered, Next, Enabled;
    StepIsSound(f, w, s);
    PairsStep(f, w, s);
    StepFrame(f, w, s);
  }

  lemma StepFrame(f: Frame, w: World, s: Step)
    requires Enabled(f, w, s)
    ensures w.ever <= Next(w, s).ever && Next(w, s).ceremonies.Keys == w.ceremonies.Keys
    ensures forall c :: c in w.ceremonies ==> Next(w, s).ceremonies[c].jkt == w.ceremonies[c].jkt
    ensures forall n :: WasDiscarded(w, n) ==> WasDiscarded(Next(w, s), n)
  {
    hide IsLive, Lists, SessionsToSupersede, Steady;
    forall n | WasDiscarded(w, n) ensures WasDiscarded(Next(w, s), n) {
      var c :| c in w.ceremonies && w.ceremonies[c].phase.Discarded? && w.ceremonies[c].session == n;
      assert Next(w, s).ceremonies[c] == w.ceremonies[c];
    }
  }

  // ---- Whole runs ----

  /** v is what the steps, each enabled in its turn, make of w. */
  ghost predicate IsRun(f: Frame, w: World, steps: seq<Step>, v: World)
    decreases |steps|
  {
    if steps == [] then v == w else Enabled(f, w, steps[0]) && IsRun(f, Next(w, steps[0]), steps[1..], v)
  }

  /** Before the run: some sessions, none expiring during the run, and ceremonies that will each insert a new one. */
  ghost predicate IsStart(f: Frame, w: World) {
    && f.from <= f.to && w.live == w.ever
    && (forall x, y :: x in w.ever && y in w.ever && x != y ==> x.id != y.id)
    && (forall x :: x in w.ever ==> Steady(f, x))
    && (forall c :: c in w.ceremonies ==> w.ceremonies[c].phase.Waiting? && CeremonyOk(f, w, w.ceremonies[c]))
    && (forall c, d :: c in w.ceremonies && d in w.ceremonies && c != d ==>
          w.ceremonies[c].session.id != w.ceremonies[d].session.id)
  }

  lemma StartIsInv(f: Frame, w: World)
    requires IsStart(f, w)
    ensures Inv(f, w)
  {
  }

  lemma {:induction false} RunKeeps(f: Frame, w: World, steps: seq<Step>, v: World)
    requires Inv(f, w) && IsRun(f, w, steps, v)
    ensures Inv(f, v) && w.ever <= v.ever && v.ceremonies.Keys == w.ceremonies.Keys
    ensures forall c :: c in w.ceremonies ==> v.ceremonies[c].jkt == w.ceremonies[c].jkt
    ensures forall n :: WasDiscarded(w, n) ==> WasDiscarded(v, n)
    decreases |steps|
  {
    hide Inv, Lists, IsLive, Steady, WasDiscarded;
    if steps != [] {
      StepKeeps(f, w, steps[0]);
      RunKeeps(f, Next(w, steps[0]), steps[1..], v);
    }
  }

  /** Unless its own ceremony discards it, the newest session of the key is live at every point from its insert on. */
  lemma NewestIsNeverRevoked(f: Frame, w: World, xs: seq<Step>, u: World, ys: seq<Step>, v: World, n: Session)
    requires IsStart(f, w) && IsRun(f, w, xs, u) && IsRun(f, u, ys, v)
    requires IsLatestOf(v.ever, f.jkt, f.from, n) && n in u.ever && !WasDiscarded(v, n)
    ensures n in u.live
  {
    hide IsStart, IsRun, IsNewer, WasDiscarded, PairsCovered, IsLatestOf;
    TopIsLatest(f, v, n);
    StartIsInv(f, w);
    RunKeeps(f, w, xs, u);
    RunKeeps(f, u, ys, v);
    assert IsTop(f, u, n);
  }

  predicate HasEnded(x: Ceremony) { x.phase.Finished? || x.phase.Discarded? }

  /** Every ceremony of the key has ended, and ceremony c by listing and revoking. */
  ghost predicate AllEnded(f: Frame, v: World, c: nat) {
    && c in v.ceremonies && v.ceremonies[c].jkt == f.jkt && v.ceremonies[c].phase.Finished?
    && forall d :: d in v.ceremonies && v.ceremonies[d].jkt == f.jkt ==> HasEnded(v.ceremonies[d])
  }

  /** Once all ceremonies of the key have ended, and one of them has finished, at most one of its sessions is live. */
  lemma AtMostOneSurvives(f: Frame, w: World, steps: seq<Step>, v: World, c: nat, x: Session, y: Session)
    requires IsStart(f, w) && IsRun(f, w, steps, v) && AllEnded(f, v, c)
    requires x in v.live && IsLive(f, x) && y in v.live && IsLive(f, y)
    ensures x == y
  {
    hide IsStart, IsRun, IsNewer, QueueOk, CeremonyOk, WasDiscarded, IsTop;
    StartIsInv(f, w);
    RunKeeps(f, w, steps, v);
    NewerIsTotal(x, y);
    assert HasListed(v.ceremonies[c]);
    if IsNewer(y, x) { NothingCovers(f, v, c, x, y); }
    if IsNewer(x, y) { NothingCovers(f, v, c, y, x); }
  }

  lemma NothingCovers(f: Frame, v: World, c: nat, x: Session, y: Session)
    requires AllEnded(f, v, c)
    ensures !Covered(f, v, x, y)
  {
  }

  // Among the sessions of the key ever created there is a newest one.
  lemma Newest(f: Frame, w: World, s: Session) returns (n: Session)
    requires Sound(f, w) && s in w.ever && IsLive(f, s)
    ensures IsTop(f, w, n) && (n == s || IsNewer(n, s))
  {
    hide IsNewer, QueueOk, CeremonyOk, WasDiscarded;
    n := s;
    var rest := w.ever;
    while rest != {}
      invariant rest <= w.ever && n in w.ever && IsLive(f, n)
      invariant n == s || IsNewer(n, s)
      invariant forall x :: x in w.ever && x !in rest && IsLive(f, x) ==> x == n || IsNewer(n, x)
      decreases rest
    {
      var x :| x in rest;
      NewerIsTotal(n, x);
      if IsLive(f, x) && IsNewer(x, n) {
        forall y | y in w.ever && y !in rest && IsLive(f, y) && y != n ensures IsNewer(x, y) {
          NewerIsTransitive(x, n, y);
        }
        if n != s { NewerIsTransitive(x, n, s); }
        n := x;
      }
      rest := rest - {x};
    }
  }

  /**
   * Once all ceremonies of the key have ended, the newest session there ever was is the one live
   * session of the key, if and only if its own ceremony did not discard it.
   */
  lemma NewestSurvivesIff(f: Frame, w: World, steps: seq<Step>, v: World, c: nat) returns (n: Session)
    requires IsStart(f, w) && IsRun(f, w, steps, v) && AllEnded(f, v, c)
    ensures IsTop(f, v, n) && IsLatestOf(v.ever, f.jkt, f.from, n)
    ensures !WasDiscarded(v, n) <==> forall s :: s in v.live && IsOpen(s, f.jkt, f.from) <==> s == n
  {
    forall s ensures IsLive(f, s) <==> IsOpen(s, f.jkt, f.from) { CandidateIsOpen(s, f.jkt, f.from); }
    hide IsStart, IsRun, IsNewer, QueueOk, PairsCovered, IsOpen, IsLatestOf;
    StartIsInv(f, w);
    RunKeeps(f, w, steps, v);
    assert CeremonyOk(f, v, v.ceremonies[c]);
    n := Newest(f, v, v.ceremonies[c].session);
    TopIsLatest(f, v, n);
    if !WasDiscarded(v, n) {
      forall s | s in v.live && IsLive(f, s) ensures s == n { AtMostOneSurvives(f, w, steps, v, c, s, n); }
    } else {
      var d :| d in v.ceremonies && v.ceremonies[d].phase.Discarded? && v.ceremonies[d].session == n;
      assert CeremonyOk(f, v, v.ceremonies[d]);
    }
  }

  /** When no ceremony of the key discards its session, exactly one session of the key survives. */
  lemma ExactlyOneSurvives(f: Frame, w: World, steps: seq<Step>, v: World, c: nat) returns (n: Session)
    requires IsStart(f, w) && IsRun(f, w, steps, v)
    requires c in v.ceremonies && v.ceremonies[c].jkt == f.jkt
    requires forall d :: d in v.ceremonies && v.ceremonies[d].jkt == f.jkt ==> v.ceremonies[d].phase.Finished?
    ensures forall s :: s in v.live && IsOpen(s, f.jkt, f.from) <==> s == n
    ensures n in v.ever && forall x :: x in v.ever && IsOpen(x, f.jkt, f.from) && x.createdAt.Some? ==>
              n.createdAt.Some? && x.createdAt.value <= n.createdAt.value
  {
    hide IsStart, IsRun, IsTop, WasDiscarded, Sound, PairsCovered, IsOpen;
    n := NewestSurvivesIff(f, w, steps, v, c);
    StartIsInv(f, w);
    RunKeeps(f, w, steps, v);
    if WasDiscarded(v, n) { var _ := Discarder(f, v, n); }
  }

  // A session of the key that was discarded was discarded by a ceremony of the key.
  lemma Discarder(f: Frame, v: World, n: Session) returns (d: nat)
    requires Sound(f, v) && IsTop(f, v, n) && WasDiscarded(v, n)
    ensures d in v.ceremonies && v.ceremonies[d].jkt == f.jkt && v.ceremonies[d].phase.Discarded?
  {
    hide IsNewer, QueueOk;
    d :| d in v.ceremonies && v.ceremonies[d].phase.Discarded? && v.ceremonies[d].session == n;
    assert CeremonyOk(f, v, v.ceremonies[d]);
  }

  // ---- Exactly when one survives ----

  /** The newest of the key's live sessions. */
  ghost predicate IsNewestLive(f: Frame, w: World, t: Session) {
    t in w.live && IsLive(f, t) && forall x :: x in w.live && IsLive(f, x) ==> x == t || IsNewer(t, x)
  }

  lemma NewestLiveIsLatest(f: Frame, w: World, t: Session)
    ensures IsNewestLive(f, w, t) <==> IsLatestOf(w.live, f.jkt, f.from, t)
  {
    hide IsNewer, IsLater, IsCandidate, IsOpen;
    CandidateIsOpen(t, f.jkt, f.from);
    forall x ensures IsCandidate(x, f.jkt, f.from) == IsOpen(x, f.jkt, f.from) && IsNewer(t, x) == IsLater(t, x) {
      CandidateIsOpen(x, f.jkt, f.from);
      NewerIsLater(t, x);
    }
  }

  ghost predicate IsQueued(w: World, t: Session) {
    exists d :: d in w.ceremonies && w.ceremonies[d].phase.Revoking? && t in w.ceremonies[d].phase.queue
  }

  predicate ListsKey(f: Frame, w: World, s: Step) {
    s.List? && s.c in w.ceremonies && w.ceremonies[s.c].jkt == f.jkt
  }

  /** No ceremony of the key lists in the steps. */
  ghost predicate NoneLists(f: Frame, w: World, steps: seq<Step>) {
    forall s :: s in steps ==> !ListsKey(f, w, s)
  }

  // Every live session of the key but t is queued, or its own ceremony has not listed.
  ghost predicate OnlySpares(f: Frame, w: World, t: Session) {
    forall x :: x in w.live && IsLive(f, x) && x != t ==>
      exists d :: d in w.ceremonies && w.ceremonies[d].jkt == f.jkt && Covers(w.ceremonies[d], x, x)
  }

  ghost predicate IsLost(w: World, t: Session) { t in w.ever && (t !in w.live || IsQueued(w, t)) }

  ghost predicate IsSafe(w: World, t: Session) { t in w.live && !IsQueued(w, t) }

  lemma SparesStep(f: Frame, w: World, s: Step, t: Session)
    requires Sound(f, w) && Enabled(f, w, s) && !ListsKey(f, w, s) && OnlySpares(f, w, t)
    ensures OnlySpares(f, Next(w, s), t)
  {
    hide SessionsToSupersede, IsNewer, QueueOk, WasDiscarded, IsTop, Lists, Steady;
    var v := Next(w, s);
    forall x | x in v.live && IsLive(f, x) && x != t
      ensures exists d :: d in v.ceremonies && v.ceremonies[d].jkt == f.jkt && Covers(v.ceremonies[d], x, x)
    {
      if x in w.live {
        var d :| d in w.ceremonies && w.ceremonies[d].jkt == f.jkt && Covers(w.ceremonies[d], x, x);
        assert Covers(v.ceremonies[d], x, x);
      } else {
        assert s.Insert? && CeremonyOk(f, w, w.ceremonies[s.c]);
        assert Covers(v.ceremonies[s.c], x, x);
      }
    }
  }

  lemma LostStep(f: Frame, w: World, s: Step, t: Session)
    requires Sound(f, w) && Enabled(f, w, s) && IsLost(w, t)
    ensures IsLost(Next(w, s), t)
  {
    hide SessionsToSupersede, IsNewer, QueueOk, WasDiscarded, IsTop, Lists, Steady, IsLive;
    var v := Next(w, s);
    if s.Insert? { assert CeremonyOk(f, w, w.ceremonies[s.c]); }
    if t in v.live && t in w.live {
      var d :| d in w.ceremonies && w.ceremonies[d].phase.Revoking? && t in w.ceremonies[d].phase.queue;
      assert v.ceremonies[d].phase.Revoking? && t in v.ceremonies[d].phase.queue;
    }
  }

  lemma SafeStep(f: Frame, w: World, s: Step, t: Session)
    requires Sound(f, w) && Enabled(f, w, s) && !ListsKey(f, w, s) && IsSafe(w, t) && IsLive(f, t)
    requires !WasDiscarded(Next(w, s), t)
    ensures IsSafe(Next(w, s), t)
  {
    hide SessionsToSupersede, IsNewer, QueueOk, IsTop, DistinctIds, CeremonyOk;
    var v := Next(w, s);
    if s.List? {
      SupersededIff(s.view, w.ceremonies[s.c].jkt, s.now, t);
    }
    if s.Discard? { assert v.ceremonies[s.c].phase.Discarded?; }
    forall d | d in v.ceremonies && v.ceremonies[d].phase.Revoking? ensures t !in v.ceremonies[d].phase.queue {
      if w.ceremonies[d].phase.Revoking? { assert t !in w.ceremonies[d].phase.queue; }
    }
  }

  lemma {:induction false} SparesRun(f: Frame, w: World, steps: seq<Step>, v: World, t: Session)
    requires Inv(f, w) && IsRun(f, w, steps, v) && NoneLists(f, w, steps) && OnlySpares(f, w, t)
    ensures OnlySpares(f, v, t)
    decreases |steps|
  {
    hide Inv, Sound, Next, Lists, IsLive, Steady, OnlySpares, WasDiscarded;
    if steps != [] {
      assert steps[0] in steps && forall s :: s in steps[1..] ==> s in steps;
      StepKeeps(f, w, steps[0]);
      SoundOfInv(f, w);
      SparesStep(f, w, steps[0], t);
      SparesRun(f, Next(w, steps[0]), steps[1..], v, t);
    }
  }

  lemma {:induction false} LostRun(f: Frame, w: World, steps: seq<Step>, v: World, t: Session)
    requires Inv(f, w) && IsRun(f, w, steps, v) && IsLost(w, t)
    ensures IsLost(v, t)
    decreases |steps|
  {
    hide Inv, Sound, Next, Lists, IsLive, Steady, IsLost, WasDiscarded;
    if steps != [] {
      StepKeeps(f, w, steps[0]);
      SoundOfInv(f, w);
      LostStep(f, w, steps[0], t);
      LostRun(f, Next(w, steps[0]), steps[1..], v, t);
    }
  }

  lemma {:induction false} SafeRun(f: Frame, w: World, steps: seq<Step>, v: World, t: Session)
    requires Inv(f, w) && IsRun(f, w, steps, v) && NoneLists(f, w, steps) && IsSafe(w, t) && IsLive(f, t)
    requires !WasDiscarded(v, t)
    ensures IsSafe(v, t)
    decreases |steps|
  {
    hide Inv, Sound, Next, Lists, IsLive, Steady, IsSafe, WasDiscarded;
    if steps != [] {
      assert steps[0] in steps && forall s :: s in steps[1..] ==> s in steps;
      StepKeeps(f, w, steps[0]);
      RunKeeps(f, Next(w, steps[0]), steps[1..], v);
      SoundOfInv(f, w);
      SafeStep(f, w, steps[0], t);
      SafeRun(f, Next(w, steps[0]), steps[1..], v, t);
    }
  }

  lemma SoundOfInv(f: Frame, w: World)
    requires Inv(f, w)
    ensures Sound(f, w)
  {
  }

  // What a listing of the key leaves: all but the newest live session are queued.
  lemma AfterListing(f: Frame, u: World, c: nat, view: seq<Session>, now: int, t: Session)
    requires Sound(f, u) && Enabled(f, u, List(c, view, now)) && u.ceremonies[c].jkt == f.jkt && IsNewestLive(f, u, t)
    ensures var w := Next(u, List(c, view, now));
            && OnlySpares(f, w, t) && (IsQueued(u, t) ==> IsLost(w, t)) && (!IsQueued(u, t) ==> IsSafe(w, t))
  {
    hide SessionsToSupersede, IsNewer, QueueOk, IsTop, DistinctIds, WasDiscarded, CeremonyOk;
    var w := Next(u, List(c, view, now));
    forall x | x in w.live && IsLive(f, x) && x != t
      ensures exists d :: d in w.ceremonies && w.ceremonies[d].jkt == f.jkt && Covers(w.ceremonies[d], x, x)
    {
      ListQueues(f, u, c, view, now, x, t);
      assert Covers(w.ceremonies[c], x, x);
    }
    NewestNotQueued(f, u, c, view, now, t);
    if IsQueued(u, t) {
      var d :| d in u.ceremonies && u.ceremonies[d].phase.Revoking? && t in u.ceremonies[d].phase.queue;
      assert w.ceremonies[d] == u.ceremonies[d];
    }
  }

  lemma NewestNotQueued(f: Frame, u: World, c: nat, view: seq<Session>, now: int, t: Session)
    requires Sound(f, u) && Enabled(f, u, List(c, view, now)) && IsNewestLive(f, u, t)
    ensures t !in SessionsToSupersede(view, f.jkt, now)
  {
    hide SessionsToSupersede, IsNewer, QueueOk, IsTop, DistinctIds, WasDiscarded, CeremonyOk;
    SupersededIff(view, f.jkt, now, t);
    if t in SessionsToSupersede(view, f.jkt, now) {
      var x :| x in view && IsCandidate(x, f.jkt, now) && IsNewer(x, t);
      assert x in u.live && Steady(f, x);
      NewerIsTotal(x, t);
    }
  }

  // When all ceremonies of the key have ended, nothing is queued and nothing is still to be listed.
  lemma EndedSparesOnly(f: Frame, v: World, c: nat, t: Session)
    requires Sound(f, v) && AllEnded(f, v, c) && OnlySpares(f, v, t) && IsLive(f, t)
    ensures forall s :: s in v.live && IsLive(f, s) ==> s == t
    ensures IsLost(v, t) ==> t !in v.live
  {
    hide IsNewer, IsTop, WasDiscarded, CeremonyOk;
  }

  lemma DiscardedIsDead(f: Frame, v: World, t: Session)
    requires Sound(f, v) && WasDiscarded(v, t)
    ensures t !in v.live
  {
    hide IsNewer, IsTop, QueueOk;
    var d :| d in v.ceremonies && v.ceremonies[d].phase.Discarded? && v.ceremonies[d].session == t;
    assert CeremonyOk(f, v, v.ceremonies[d]);
  }

  /**
   * Take the last listing of the key in a run that ends all its ceremonies. One session of the key
   * survives if and only if the newest one live at that listing was not already queued by an earlier
   * ceremony and is not discarded by its own; and then it is that one.
   */
  lemma OneSurvivesIff(
    f: Frame, start: World, xs: seq<Step>, u: World, c: nat, view: seq<Session>, now: int,
    ys: seq<Step>, v: World, t: Session)
    requires IsStart(f, start) && IsRun(f, start, xs, u)
    requires Enabled(f, u, List(c, view, now)) && u.ceremonies[c].jkt == f.jkt
    requires var w := Next(u, List(c, view, now)); IsRun(f, w, ys, v) && NoneLists(f, w, ys)
    requires AllEnded(f, v, c) && IsLatestOf(u.live, f.jkt, f.from, t)
    ensures forall s :: s in v.live && IsOpen(s, f.jkt, f.from) ==> s == t
    ensures t in v.live <==> !IsQueued(u, t) && !WasDiscarded(v, t)
  {
    NewestLiveIsLatest(f, u, t);
    forall s ensures IsLive(f, s) <==> IsOpen(s, f.jkt, f.from) { CandidateIsOpen(s, f.jkt, f.from); }
    hide IsStart, IsRun, Lists, Next, Sound, PairsCovered, IsOpen, IsLatestOf, OnlySpares, IsQueued,
         WasDiscarded, AllEnded, NoneLists;
    var w := Next(u, List(c, view, now));
    StartIsInv(f, start);
    RunKeeps(f, start, xs, u);
    AfterListing(f, u, c, view, now, t);
    StepKeeps(f, u, List(c, view, now));
    RunKeeps(f, w, ys, v);
    SparesRun(f, w, ys, v, t);
    EndedSparesOnly(f, v, c, t);
    if IsQueued(u, t) { LostRun(f, w, ys, v, t); }
    if WasDiscarded(v, t) { DiscardedIsDead(f, v, t); }
    if !IsQueued(u, t) && !WasDiscarded(v, t) { SafeRun(f, w, ys, v, t); }
  }

  /** Sessions of other levels, and of keys no ceremony uses, are never touched by a ceremony. */
  lemma {:induction false} OthersAreUntouched(f: Frame, w: World, steps: seq<Step>, v: World, x: Session)
    requires Inv(f, w) && IsRun(f, w, steps, v) && x in w.live
    requires x.level.OtherLevel? || forall c :: c in w.ceremonies ==> x.jkt != Some(w.ceremonies[c].jkt)
    requires forall s :: s in steps && s.Unrelated? ==> x !in s.removed
    ensures x in v.live
    decreases |steps|
  {
    hide Inv, Next, Lists, IsLive, Steady;
    if steps != [] {
      assert steps[0] in steps;
      OtherStaysLive(f, w, steps[0], x);
      StepKeeps(f, w, steps[0]);
      assert forall t :: t in steps[1..] ==> t in steps;
      OthersAreUntouched(f, Next(w, steps[0]), steps[1..], v, x);
    }
  }

  lemma OtherStaysLive(f: Frame, w: World, s: Step, x: Session)
    requires Inv(f, w) && Enabled(f, w, s) && x in w.live && (s.Unrelated? ==> x !in s.removed)
    requires x.level.OtherLevel? || forall c :: c in w.ceremonies ==> x.jkt != Some(w.ceremonies[c].jkt)
    ensures x in Next(w, s).live
  {
    hide IsNewer, PairsCovered, SessionsToSupersede, WasDiscarded, Steady, IsLive, IsTop, Lists;
    if s.Revoke? {
      var k := w.ceremonies[s.c];
      assert QueueOk(f, w, k) && k.phase.queue[0] in k.phase.queue;
    }
    if s.Discard? { assert CeremonyOk(f, w, w.ceremonies[s.c]); }
  }

  // ---- None may survive ----

  lemma ListOfTwo(a: Session, b: Session, jkt: Text, now: int)
    requires IsCandidate(a, jkt, now) && IsCandidate(b, jkt, now) && IsNewer(b, a)
    ensures SessionsToSupersede([a, b], jkt, now) == [a]
  {
    hide IsNewer, IsCandidate;
    assert [a, b][1..] == [b] && [b][1..] == [];
    assert Candidates([b], jkt, now) == [b];
    assert Candidates([a, b], jkt, now) == [a, b];
    assert [a, b][..1] == [a];
    assert NewestIndex([a]) == 0;
    assert NewestIndex([a, b]) == 1;
  }

  /** A ceremony defers to a newer one, which then discards its own session: none is left. */
  lemma NoneMaySurvive(f: Frame, a: Session, b: Session)
    requires f.from <= f.to && IsOpen(a, f.jkt, f.to) && IsOpen(b, f.jkt, f.to) && IsLater(b, a) && a.id != b.id
    ensures var w := World({}, {}, map[0 := Ceremony(a, f.jkt, Waiting), 1 := Ceremony(b, f.jkt, Waiting)]);
            var v := World({}, {a, b}, map[0 := Ceremony(a, f.jkt, Finished), 1 := Ceremony(b, f.jkt, Discarded)]);
            && IsStart(f, w) && AllEnded(f, v, 0)
            && IsRun(f, w, [Insert(0), Insert(1), List(0, [a, b], f.from), Revoke(0), Finish(0), Discard(1)], v)
  {
    NewerIsLater(b, a);
    hide IsNewer, IsLater, SessionsToSupersede, IsRun, Next, Enabled;
    FirstDefers(f, a, b);
    SecondDiscards(f, a, b);
    RunConcat(f, Pair(f, {}, {}, a, Waiting, b, Waiting), [Insert(0), Insert(1), List(0, [a, b], f.from)],
              Pair(f, {a, b}, {a, b}, a, Revoking([a]), b, Inserted), [Revoke(0), Finish(0), Discard(1)],
              Pair(f, {}, {a, b}, a, Finished, b, Discarded));
    assert [Insert(0), Insert(1), List(0, [a, b], f.from)] + [Revoke(0), Finish(0), Discard(1)] ==
           [Insert(0), Insert(1), List(0, [a, b], f.from), Revoke(0), Finish(0), Discard(1)];
  }

  function Pair(f: Frame, live: set<Session>, ever: set<Session>, a: Session, p: Phase, b: Session, q: Phase): World {
    World(live, ever, map[0 := Ceremony(a, f.jkt, p), 1 := Ceremony(b, f.jkt, q)])
  }

  lemma FirstDefers(f: Frame, a: Session, b: Session)
    requires f.from <= f.to && IsCandidate(a, f.jkt, f.from) && IsCandidate(b, f.jkt, f.from) && IsNewer(b, a)
              && a.id != b.id
    ensures IsRun(f, Pair(f, {}, {}, a, Waiting, b, Waiting), [Insert(0), Insert(1), List(0, [a, b], f.from)],
                  Pair(f, {a, b}, {a, b}, a, Revoking([a]), b, Inserted))
  {
    hide IsNewer, SessionsToSupersede, IsRun, IsCandidate;
    ListOfTwo(a, b, f.jkt, f.from);
    var w1 := Pair(f, {a}, {a}, a, Inserted, b, Waiting);
    var w2 := Pair(f, {a, b}, {a, b}, a, Inserted, b, Inserted);
    var w3 := Pair(f, {a, b}, {a, b}, a, Revoking([a]), b, Inserted);
    var list := List(0, [a, b], f.from);
    assert Lists([a, b], {a, b});
    RunNil(f, w3);
    RunCons(f, w2, list, w3, [], w3);
    assert [list] + [] == [list] && [Insert(1)] + [list] == [Insert(1), list];
    RunCons(f, w1, Insert(1), w2, [list], w3);
    RunCons(f, Pair(f, {}, {}, a, Waiting, b, Waiting), Insert(0), w1, [Insert(1), list], w3);
    assert [Insert(0)] + [Insert(1), list] == [Insert(0), Insert(1), list];
  }

  lemma SecondDiscards(f: Frame, a: Session, b: Session)
    requires a != b
    ensures IsRun(f, Pair(f, {a, b}, {a, b}, a, Revoking([a]), b, Inserted), [Revoke(0), Finish(0), Discard(1)],
                  Pair(f, {}, {a, b}, a, Finished, b, Discarded))
  {
    hide IsRun;
    var w4 := Pair(f, {b}, {a, b}, a, Revoking([]), b, Inserted);
    var w5 := Pair(f, {b}, {a, b}, a, Finished, b, Inserted);
    var w6 := Pair(f, {}, {a, b}, a, Finished, b, Discarded);
    assert [a][1..] == [];
    RunNil(f, w6);
    RunCons(f, w5, Discard(1), w6, [], w6);
    assert [Discard(1)] + [] == [Discard(1)] && [Finish(0)] + [Discard(1)] == [Finish(0), Discard(1)];
    RunCons(f, w4, Finish(0), w5, [Discard(1)], w6);
    RunCons(f, Pair(f, {a, b}, {a, b}, a, Revoking([a]), b, Inserted), Revoke(0), w4, [Finish(0), Discard(1)], w6);
    assert [Revoke(0)] + [Finish(0), Discard(1)] == [Revoke(0), Finish(0), Discard(1)];
  }

  lemma {:induction false} RunConcat(f: Frame, w: World, xs: seq<Step>, u: World, ys: seq<Step>, v: World)
    requires IsRun(f, w, xs, u) && IsRun(f, u, ys, v)
    ensures IsRun(f, w, xs + ys, v)
    decreases |xs|
  {
    hide Next, Lists, IsLive, Steady;
    if xs == [] {
      assert xs + ys == ys;
    } else {
      assert (xs + ys)[1..] == xs[1..] + ys;
      RunConcat(f, Next(w, xs[0]), xs[1..], u, ys, v);
    }
  }

  lemma RunNil(f: Frame, w: World)
    ensures IsRun(f, w, [], w)
  {
  }

  lemma RunCons(f: Frame, w: World, s: Step, u: World, rest: seq<Step>, v: World)
    requires Enabled(f, w, s) && Next(w, s) == u && IsRun(f, u, rest, v)
    ensures IsRun(f, w, [s] + rest, v)
  {
    assert ([s] + rest)[1..] == rest;
  }
}
