/**
 * Keyset pages over an investor's positions: newest activation first, rows without one last, ids
 * descending. The column counts microseconds; a cursor is written from a JavaScript date, which
 * counts milliseconds.
 */
module KeysetPaging {
  import opened Base

  /** A listed row; `at` is its activation, or a reservation's creation, in microseconds. */
  datatype Row = Row(id: Text, at: Option<int>)

  datatype Cursor = Cursor(at: Option<int>, id: Text)

  /** The list order: time descending with nulls last, then id descending. */
  predicate Precedes(a: Row, b: Row) {
    if a.at.None? then b.at.None? && Less(b.id, a.id)
    else b.at.None? || a.at.value > b.at.value || (a.at == b.at && Less(b.id, a.id))
  }

  /** The where-clause of a page: what may still follow the cursor. */
  predicate Admits(c: Cursor, r: Row) {
    if c.at.None? then r.at.None? && Less(r.id, c.id)
    else r.at.None? || r.at.value < c.at.value || (r.at == c.at && Less(r.id, c.id))
  }

  predicate Admitted(after: Option<Cursor>, r: Row) { after.None? || Admits(after.value, r) }

  function Ms(at: int): int { at / 1000 * 1000 }

  /** The cursor as it comes back from its ISO text. */
  function CursorOf(r: Row): Cursor {
    Cursor(if r.at.None? then None else Some(Ms(r.at.value)), r.id)
  }

  /** The where-clause and cursor of the reservations list, whose time is never null. */
  predicate AdmitsReservation(createdAt: int, id: Text, r: Row)
    requires r.at.Some?
  {
    r.at.value < createdAt || (r.at.value == createdAt && Less(r.id, id))
  }

  lemma ReservationsListAlike(createdAt: int, id: Text, r: Row)
    requires r.at.Some?
    ensures AdmitsReservation(createdAt, id, r) <==> Admits(Cursor(Some(createdAt), id), r)
  {
  }

  // ---- The order ----

  lemma PrecedesIsTotal(a: Row, b: Row)
    ensures a == b || Precedes(a, b) || Precedes(b, a)
    ensures !(Precedes(a, b) && Precedes(b, a)) && !Precedes(a, a)
  {
    LessIsTotal(a.id, b.id);
    if Less(a.id, b.id) { LessIsAsymmetric(a.id, b.id); }
    if Less(b.id, a.id) { LessIsAsymmetric(b.id, a.id); }
    if Less(a.id, a.id) { LessIsAsymmetric(a.id, a.id); }
  }

  lemma PrecedesIsTransitive(a: Row, b: Row, c: Row)
    requires Precedes(a, b) && Precedes(b, c)
    ensures Precedes(a, c)
  {
    if Less(b.id, a.id) && Less(c.id, b.id) { LessIsTransitive(c.id, b.id, a.id); }
  }

  // A cursor lets only later rows through, and with a row everything after it.
  lemma AdmitsIsLater(l: Row, r: Row)
    requires Admits(CursorOf(l), r)
    ensures Precedes(l, r)
  {
  }

  lemma AdmitsIsUpward(c: Cursor, a: Row, b: Row)
    requires Admits(c, a) && Precedes(a, b)
    ensures Admits(c, b)
  {
    if Less(a.id, c.id) && Less(b.id, a.id) { LessIsTransitive(b.id, a.id, c.id); }
  }

  /** The row the list would show after `l` is lost when the page ends with `l`. */
  predicate Skips(l: Row, r: Row) { Precedes(l, r) && !Admits(CursorOf(l), r) }

  /** Only rows of one millisecond are lost, and of those only the ones not exactly on it with a smaller id. */
  lemma SkipsIff(l: Row, r: Row)
    ensures Skips(l, r) <==>
            && Precedes(l, r) && l.at.Some? && r.at.Some? && Ms(l.at.value) == Ms(r.at.value)
            && !(r.at.value % 1000 == 0 && Less(r.id, l.id))
  {
  }

  // ---- Sorted lists ----

  predicate Sorted(s: seq<Row>) { forall i, j :: 0 <= i < j < |s| ==> Precedes(s[i], s[j]) }

  lemma First(t: set<Row>) returns (m: Row)
    requires t != {}
    ensures m in t && forall r :: r in t && r != m ==> Precedes(m, r)
  {
    hide Precedes;
    m :| m in t;
    var rest := t - {m};
    while rest != {}
      invariant m in t && rest <= t
      invariant forall r :: r in t && r !in rest && r != m ==> Precedes(m, r)
      decreases rest
    {
      var x :| x in rest;
      PrecedesIsTotal(m, x);
      if Precedes(x, m) {
        forall r | r in t && r !in rest && r != m ensures Precedes(x, r) { PrecedesIsTransitive(x, m, r); }
        m := x;
      }
      rest := rest - {x};
    }
  }

  /** The rows in list order. */
  ghost function Sort(t: set<Row>): (s: seq<Row>)
    ensures Sorted(s) && (forall r :: r in s <==> r in t) && |s| == |t|
    decreases t
  {
    hide Precedes;
    if t == {} then []
    else
      FirstExists(t);
      var m :| m in t && forall r :: r in t && r != m ==> Precedes(m, r);
      [m] + Sort(t - {m})
  }

  lemma FirstExists(t: set<Row>)
    requires t != {}
    ensures exists m :: m in t && forall r :: r in t && r != m ==> Precedes(m, r)
  {
    var m := First(t);
  }

  /** There is only one sorted list of a set of rows. */
  lemma {:induction false} SortedIsUnique(a: seq<Row>, b: seq<Row>)
    requires Sorted(a) && Sorted(b) && forall r :: r in a <==> r in b
    ensures a == b
  {
    hide Precedes;
    assert |a| > 0 ==> a[0] in b;
    assert |b| > 0 ==> b[0] in a;
    if a != [] {
      assert a[0] in b && b[0] in a;
      PrecedesIsTotal(a[0], b[0]);
      assert a[0] == b[0];
      TailMembers(a);
      TailMembers(b);
      SortedIsUnique(a[1..], b[1..]);
      assert a == [a[0]] + a[1..] && b == [b[0]] + b[1..];
    }
  }

  lemma TailMembers(a: seq<Row>)
    requires a != [] && Sorted(a)
    ensures forall r :: r in a[1..] <==> r in a && r != a[0]
  {
    hide Precedes;
    PrecedesIsTotal(a[0], a[0]);
    assert a == [a[0]] + a[1..];
  }

  lemma SortedOnce(s: seq<Row>, r: Row)
    requires Sorted(s) && r in s
    ensures multiset(s)[r] == 1
  {
    hide Precedes;
    var i :| 0 <= i < |s| && s[i] == r;
    PrecedesIsTotal(r, r);
    assert r !in s[..i] && r !in s[i + 1..];
    assert s == s[..i] + [r] + s[i + 1..];
  }

  // ---- One page ----

  /** What the repository answers: the first `take` of the rows the cursor admits, in order. */
  ghost function ListRows(table: set<Row>, after: Option<Cursor>, take: nat): (s: seq<Row>)
    ensures Sorted(s) && |s| <= take
  {
    var all := Sort(set r | r in table && Admitted(after, r));
    all[..if take < |all| then take else |all|]
  }

  datatype Page = Page(rows: seq<Row>, next: Option<Cursor>)

  /** The service asks for one row more than the limit to learn whether there is a next page. */
  ghost function Execute(table: set<Row>, after: Option<Cursor>, limit: nat): Page {
    var rows := ListRows(table, after, limit + 1);
    var hasNext := |rows| > limit;
    var data := if hasNext then rows[..limit] else rows;
    Page(data, if hasNext && data != [] then Some(CursorOf(data[|data| - 1])) else None)
  }

  // A page holds the earliest admitted rows; the admitted rows it leaves out come after its last row.
  lemma PageIs(table: set<Row>, after: Option<Cursor>, limit: nat)
    requires limit >= 1
    ensures var p := Execute(table, after, limit);
            && Sorted(p.rows) && (forall r :: r in p.rows ==> r in table && Admitted(after, r))
            && (p.next.None? <==> forall r :: r in table && Admitted(after, r) ==> r in p.rows)
            && (p.next.Some? ==>
                  && |p.rows| == limit && p.next == Some(CursorOf(p.rows[limit - 1]))
                  && forall r :: r in table && Admitted(after, r) && r !in p.rows ==> Precedes(p.rows[limit - 1], r))
  {
    hide Precedes, Admits;
    hide Sort, Admitted;
    var all := Sort(set r | r in table && Admitted(after, r));
    assert forall r :: r in all <==> r in table && Admitted(after, r);
    var p := Execute(table, after, limit);
    if |all| <= limit {
      assert p.rows == all;
    } else {
      assert p.rows == all[..limit];
      RestFollows(all, limit);
      OneLeftOver(all, limit);
    }
  }

  lemma RestFollows(s: seq<Row>, n: nat)
    requires Sorted(s) && 1 <= n < |s|
    ensures forall r :: r in s && r !in s[..n] ==> Precedes(s[n - 1], r)
  {
    hide Precedes;
    forall r | r in s && r !in s[..n] ensures Precedes(s[n - 1], r) {
      var i :| 0 <= i < |s| && s[i] == r;
      assert forall k :: 0 <= k < n ==> s[k] in s[..n];
    }
  }

  // The row after a cut of a sorted list is not in the part before it.
  lemma OneLeftOver(s: seq<Row>, n: nat)
    requires Sorted(s) && n < |s|
    ensures s[n] in s && s[n] !in s[..n]
  {
    hide Precedes;
    PrecedesIsTotal(s[n], s[n]);
  }

  // ---- A walk along the cursors ----

  /** The rows of all pages, the last row of each page that had a next one, and whether the end was reached. */
  datatype Walked = Walked(rows: seq<Row>, ends: seq<Row>, finished: bool)

  /** Following next_cursor; the k-th page is read from the k-th table. */
  ghost function Walk(tables: seq<set<Row>>, after: Option<Cursor>, limit: nat): Walked
    requires limit >= 1
    decreases |tables|
  {
    if tables == [] then Walked([], [], false)
    else
      var p := Execute(tables[0], after, limit);
      PageIs(tables[0], after, limit);
      if p.next.None? then Walked(p.rows, [], true)
      else
        var rest := Walk(tables[1..], p.next, limit);
        Walked(p.rows + rest.rows, [p.rows[limit - 1]] + rest.ends, rest.finished)
  }

  /** Whatever changes between pages, the walk is in order and shows no row twice. */
  lemma {:induction false} WalkIsSorted(tables: seq<set<Row>>, after: Option<Cursor>, limit: nat)
    requires limit >= 1
    ensures Sorted(Walk(tables, after, limit).rows)
    ensures forall r :: r in Walk(tables, after, limit).rows ==> Admitted(after, r)
    decreases |tables|
  {
    hide Precedes, Admits, Execute;
    if tables != [] {
      PageIs(tables[0], after, limit);
      var p := Execute(tables[0], after, limit);
      if p.next.Some? {
        WalkIsSorted(tables[1..], p.next, limit);
        var rest := Walk(tables[1..], p.next, limit);
        forall r | r in rest.rows ensures Admitted(after, r) && forall x :: x in p.rows ==> Precedes(x, r) {
          LaterPage(p, after, limit, r);
        }
        SortedConcat(p.rows, rest.rows);
      }
    }
  }

  /**
   * What the investor sees over all pages, field by field: the newest activation first, rows without
   * one after all others, and at the same instant the greater id first.
   */
  lemma WalkIsNewestFirst(tables: seq<set<Row>>, limit: nat, i: nat, j: nat)
    requires limit >= 1 && i < j < |Walk(tables, None, limit).rows|
    ensures var a, b := Walk(tables, None, limit).rows[i], Walk(tables, None, limit).rows[j];
            && (b.at != None ==> a.at != None && a.at.value >= b.at.value)
            && (a.at == b.at ==> Less(b.id, a.id))
  {
    hide Walk;
    WalkIsSorted(tables, None, limit);
  }

  lemma SortedConcat(a: seq<Row>, b: seq<Row>)
    requires Sorted(a) && Sorted(b) && forall x, y :: x in a && y in b ==> Precedes(x, y)
    ensures Sorted(a + b)
  {
    hide Precedes;
    var s := a + b;
    forall i, j | 0 <= i < j < |s| ensures Precedes(s[i], s[j]) {
      if i < |a| <= j { assert s[i] in a && s[j] in b; }
    }
  }

  // What the next page may show comes after everything on this one.
  lemma LaterPage(p: Page, after: Option<Cursor>, limit: nat, r: Row)
    requires limit >= 1 && |p.rows| == limit && Sorted(p.rows) && p.next == Some(CursorOf(p.rows[limit - 1]))
    requires (forall x :: x in p.rows ==> Admitted(after, x)) && Admitted(p.next, r)
    ensures Admitted(after, r) && forall x :: x in p.rows ==> Precedes(x, r)
  {
    hide Precedes, Admits;
    var l := p.rows[limit - 1];
    assert l in p.rows;
    AdmitsIsLater(l, r);
    if after.Some? { AdmitsIsUpward(after.value, l, r); }
    forall x | x in p.rows ensures Precedes(x, r) {
      if x != l { PrecedesIsTransitive(x, l, r); }
    }
  }

  /** A row that is there throughout a finished walk is shown exactly when no page ended on a row that skips it. */
  lemma {:induction false} StableRowIsShownIff(tables: seq<set<Row>>, after: Option<Cursor>, limit: nat, r: Row)
    requires limit >= 1 && Walk(tables, after, limit).finished && Admitted(after, r)
    requires forall k :: 0 <= k < |tables| ==> r in tables[k]
    ensures var w := Walk(tables, after, limit);
            r in w.rows <==> forall l :: l in w.ends ==> !Skips(l, r)
    decreases |tables|
  {
    hide Precedes, Admits, Execute, Sorted;
    PageIs(tables[0], after, limit);
    var p := Execute(tables[0], after, limit);
    if p.next.Some? {
      var l, rest := p.rows[limit - 1], Walk(tables[1..], p.next, limit);
      WalkIsSorted(tables[1..], p.next, limit);
      EndsAreShown(tables[1..], p.next, limit);
      if r in p.rows {
        ShownIsNotSkipped(p.rows, l, r);
        forall e | e in rest.ends ensures !Skips(e, r) {
          AdmitsIsLater(l, e);
          PrecedesIsTotal(l, r);
          if Precedes(e, r) { PrecedesIsTransitive(l, e, r); ShownIsNotSkipped(p.rows, l, r); }
        }
      } else if Admits(CursorOf(l), r) {
        StableRowIsShownIff(tables[1..], p.next, limit, r);
      } else {
        assert Skips(l, r);
        assert l in Walk(tables, after, limit).ends;
      }
    }
  }

  // The last row of a page precedes none of the page's rows.
  lemma ShownIsNotSkipped(rows: seq<Row>, l: Row, r: Row)
    requires Sorted(rows) && rows != [] && l == rows[|rows| - 1] && r in rows
    ensures !Precedes(l, r) && !Skips(l, r)
  {
    hide Precedes, Admits;
    PrecedesIsTotal(l, r);
    PrecedesIsTotal(l, l);
  }

  lemma {:induction false} EndsAreShown(tables: seq<set<Row>>, after: Option<Cursor>, limit: nat)
    requires limit >= 1
    ensures forall e :: e in Walk(tables, after, limit).ends ==> e in Walk(tables, after, limit).rows
    decreases |tables|
  {
    hide Precedes, Admits, Execute;
    if tables != [] {
      PageIs(tables[0], after, limit);
      var p := Execute(tables[0], after, limit);
      if p.next.Some? {
        EndsAreShown(tables[1..], p.next, limit);
        assert p.rows[limit - 1] in p.rows;
      }
    }
  }

  predicate OnMillisecond(r: Row) { r.at.None? || r.at.value % 1000 == 0 }

  /** A row there throughout a finished walk, and skipped by no other row that is ever there, is shown exactly once. */
  lemma StableRowShownOnce(tables: seq<set<Row>>, limit: nat, r: Row)
    requires limit >= 1 && Walk(tables, None, limit).finished
    requires forall k :: 0 <= k < |tables| ==> r in tables[k]
    requires forall k, x :: 0 <= k < |tables| && x in tables[k] ==> !Skips(x, r)
    ensures multiset(Walk(tables, None, limit).rows)[r] == 1
  {
    hide Skips, Walk;
    StableRowIsShownIff(tables, None, limit, r);
    WalkIsSorted(tables, None, limit);
    EndsAreStored(tables, None, limit);
    SortedOnce(Walk(tables, None, limit).rows, r);
  }

  lemma {:induction false} EndsAreStored(tables: seq<set<Row>>, after: Option<Cursor>, limit: nat)
    requires limit >= 1
    ensures forall e :: e in Walk(tables, after, limit).ends ==> exists k :: 0 <= k < |tables| && e in tables[k]
    decreases |tables|
  {
    hide Precedes, Admits, Execute;
    if tables != [] {
      PageIs(tables[0], after, limit);
      var p := Execute(tables[0], after, limit);
      if p.next.Some? {
        EndsAreStored(tables[1..], p.next, limit);
        assert p.rows[limit - 1] in tables[0];
        forall e | e in Walk(tables[1..], p.next, limit).ends ensures exists k :: 0 <= k < |tables| && e in tables[k] {
          var k :| 0 <= k < |tables[1..]| && e in tables[1..][k];
          assert tables[k + 1] == tables[1..][k];
        }
      }
    }
  }

  // ---- A table that does not change ----

  function Still(table: set<Row>, n: nat): seq<set<Row>> { seq(n, _ => table) }

  /** No row of the table skips another. */
  ghost predicate Separable(table: set<Row>) {
    forall l, r :: l in table && r in table ==> !Skips(l, r)
  }

  /** JavaScript dates have whole milliseconds, and a table written from them is separable. */
  lemma WholeMillisecondsAreSeparable(table: set<Row>)
    requires forall r :: r in table ==> OnMillisecond(r)
    ensures Separable(table)
  {
    forall l, r | l in table && r in table ensures !Skips(l, r) {
      assert OnMillisecond(l) && OnMillisecond(r);
      SkipsIff(l, r);
    }
  }

  /** Every page but the last shows at least one new row, so the walk ends within one page more than there are rows. */
  lemma {:induction false} WalkFinishes(table: set<Row>, after: Option<Cursor>, limit: nat, n: nat)
    requires limit >= 1 && n > |set r | r in table && Admitted(after, r)|
    ensures Walk(Still(table, n), after, limit).finished
    decreases n
  {
    hide Precedes, Admits, Execute;
    PageIs(table, after, limit);
    var p := Execute(table, after, limit);
    assert Still(table, n)[0] == table && Still(table, n)[1..] == Still(table, n - 1);
    if p.next.Some? {
      var now, later := set r | r in table && Admitted(after, r), set r | r in table && Admitted(p.next, r);
      forall r | r in later ensures r in now && r != p.rows[limit - 1] {
        LaterPage(p, after, limit, r);
        PrecedesIsTotal(r, r);
      }
      Fewer(later, now, p.rows[limit - 1]);
      WalkFinishes(table, p.next, limit, n - 1);
    }
  }

  lemma Fewer(a: set<Row>, b: set<Row>, x: Row)
    requires x in b && forall r :: r in a ==> r in b && r != x
    ensures |a| < |b|
  {
    assert a <= b - {x};
    SubsetIsSmaller(a, b - {x});
  }

  /** All pages of a table that does not change. */
  ghost function Pages(table: set<Row>, limit: nat): seq<Row>
    requires limit >= 1
  {
    Walk(Still(table, |table| + 1), None, limit).rows
  }

  /** The pages of every limit the API allows, put together, are the sorted list exactly when the table is separable. */
  lemma PagesAreTheListIff(table: set<Row>)
    ensures Separable(table) <==> forall limit: nat :: 1 <= limit <= 100 ==> Pages(table, limit) == Sort(table)
  {
    hide Precedes, Skips, Walk, Sort, Pages;
    if Separable(table) {
      forall limit: nat | 1 <= limit <= 100 ensures Pages(table, limit) == Sort(table) {
        SeparablePages(table, limit);
      }
    } else {
      var l, r :| l in table && r in table && Skips(l, r);
      PagesOfOneLose(table, l, r);
    }
  }

  lemma AllAdmitted(table: set<Row>)
    ensures (set r | r in table && Admitted(None, r)) == table
  {
  }

  lemma SeparablePages(table: set<Row>, limit: nat)
    requires limit >= 1 && Separable(table)
    ensures Pages(table, limit) == Sort(table)
  {
    hide Precedes, Skips, Walk, Sort;
    var tables := Still(table, |table| + 1);
    var w := Walk(tables, None, limit);
    AllAdmitted(table);
    WalkFinishes(table, None, limit, |table| + 1);
    WalkIsSorted(tables, None, limit);
    EndsAreStored(tables, None, limit);
    RowsAreStored(tables, None, limit);
    forall r | r in table ensures r in w.rows { StableRowIsShownIff(tables, None, limit, r); }
    assert forall r :: r in Sort(table) <==> r in table;
    SortedIsUnique(w.rows, Sort(table));
  }

  lemma {:induction false} RowsAreStored(tables: seq<set<Row>>, after: Option<Cursor>, limit: nat)
    requires limit >= 1
    ensures forall r :: r in Walk(tables, after, limit).rows ==> exists k :: 0 <= k < |tables| && r in tables[k]
    decreases |tables|
  {
    hide Precedes, Admits, Execute;
    if tables != [] {
      PageIs(tables[0], after, limit);
      var p := Execute(tables[0], after, limit);
      assert forall r :: r in p.rows ==> r in tables[0];
      if p.next.Some? {
        RowsAreStored(tables[1..], p.next, limit);
        forall e | e in Walk(tables[1..], p.next, limit).rows ensures exists k :: 0 <= k < |tables| && e in tables[k] {
          var k :| 0 <= k < |tables[1..]| && e in tables[1..][k];
          assert tables[k + 1] == tables[1..][k];
        }
      }
    }
  }

  // With pages of one row, every row but the last ends a page.
  lemma {:induction false} PagesOfOneEnd(tables: seq<set<Row>>, after: Option<Cursor>)
    requires Walk(tables, after, 1).finished
    ensures var w := Walk(tables, after, 1);
            |w.rows| <= |w.ends| + 1 && forall k :: 0 <= k < |w.rows| - 1 ==> w.rows[k] in w.ends
    decreases |tables|
  {
    hide Precedes, Admits, Sort;
    var p := Execute(tables[0], after, 1);
    if p.next.Some? {
      PagesOfOneEnd(tables[1..], p.next);
    }
  }

  lemma PagesOfOneLose(table: set<Row>, l: Row, r: Row)
    requires l in table && r in table && Skips(l, r)
    ensures Pages(table, 1) != Sort(table)
  {
    hide Admits, Walk, Sort;
    var tables := Still(table, |table| + 1);
    var w := Walk(tables, None, 1);
    AllAdmitted(table);
    WalkFinishes(table, None, 1, |table| + 1);
    if l in w.rows && r in w.rows {
      WalkIsSorted(tables, None, 1);
      PagesOfOneEnd(tables, None);
      Earlier(w.rows, l, r);
      StableRowIsShownIff(tables, None, 1, r);
    }
    assert l in Sort(table) && r in Sort(table);
  }

  lemma Earlier(s: seq<Row>, l: Row, r: Row)
    requires Sorted(s) && l in s && r in s && Precedes(l, r)
    ensures exists k :: 0 <= k < |s| - 1 && s[k] == l
  {
    hide Precedes;
    var i :| 0 <= i < |s| && s[i] == l;
    var j :| 0 <= j < |s| && s[j] == r;
    PrecedesIsTotal(l, r);
    PrecedesIsTotal(l, l);
  }

  /** Two rows a microsecond apart and pages of one: the second is never shown. */
  lemma MicrosecondIsLost()
    ensures !Separable({Row([1], Some(1_001)), Row([2], Some(1_000))})
  {
    var l, r := Row([1], Some(1_001)), Row([2], Some(1_000));
    LessIsAsymmetric([1], [2]);
    assert Skips(l, r);
  }
}
