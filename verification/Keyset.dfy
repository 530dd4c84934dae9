/**
 Keyset pagination of the readings export (`export_membership.py`): each page holds the newest rows strictly
 before the cursor, and the last row of a full page is the next cursor.
 */
module Keyset {
  import opened Prelude

  /** The unique (ts_utc, scope_key) of a row; the key by its position in the collation order of the database. */
  datatype RowKey = RowKey(ts: int, position: int)

  type Table = set<RowKey>

  predicate Less(a: RowKey, b: RowKey) {
    a.ts < b.ts || (a.ts == b.ts && a.position < b.position)
  }

  /** CURSOR_WHERE */
  function Before(table: Table, cursor: Option<RowKey>): Table {
    set r | r in table && (cursor.Some? ==> Less(r, cursor.value))
  }

  predicate IsMax(s: Table, m: RowKey) {
    m in s && forall r :: r in s && r != m ==> Less(r, m)
  }

  lemma {:induction false} MaxExists(s: Table)
    requires s != {}
    ensures exists m :: IsMax(s, m)
  {
    var y := Pick(s);
    assert forall x :: x in s ==> x == y || x in s - {y};
    if s - {y} == {} {
      assert IsMax(s, y);
    } else {
      MaxExists(s - {y});
      var m :| IsMax(s - {y}, m);
      assert IsMax(s, if Less(y, m) then m else y);
    }
  }

  function Newest(s: Table): (m: RowKey)
    requires s != {}
    ensures IsMax(s, m)
  {
    MaxExists(s);
    var m :| IsMax(s, m);
    m
  }

  predicate Descending(rows: seq<RowKey>) {
    forall i, j :: 0 <= i < j < |rows| ==> Less(rows[j], rows[i])
  }

  /** In a descending sequence the smaller row comes later. */
  lemma SmallerIsLater(rows: seq<RowKey>, i: nat, j: nat)
    requires Descending(rows) && i < |rows| && j < |rows| && Less(rows[j], rows[i])
    ensures i < j
  {
  }

  /** KEYSET_ORDER without its limit. */
  function Ordered(s: Table): (rows: seq<RowKey>)
    ensures Descending(rows) && forall r :: r in rows <==> r in s
    decreases s
  {
    if s == {} then []
    else
      var m := Newest(s);
      [m] + Ordered(s - {m})
  }

  function Page(table: Table, cursor: Option<RowKey>, limit: nat): seq<RowKey> {
    var rows := Ordered(Before(table, cursor));
    if |rows| <= limit then rows else rows[..limit]
  }

  /** next_cursor(): the last row of a full page, None at the end. */
  function NextCursor(page: seq<RowKey>, limit: nat): Option<RowKey> {
    if page == [] || |page| < limit then None else Some(page[|page| - 1])
  }

  // ---------------------------------------------------------------- a walk over a changing table

  /** Everything a client receives when page i is read from `tables[i]`. */
  function Walk(tables: seq<Table>, cursor: Option<RowKey>, limit: nat): seq<RowKey> {
    if tables == [] then []
    else
      var page := Page(tables[0], cursor, limit);
      var next := NextCursor(page, limit);
      page + if next.None? then [] else Walk(tables[1..], next, limit)
  }

  /** The walk comes to its last page within `tables`. */
  predicate Ends(tables: seq<Table>, cursor: Option<RowKey>, limit: nat) {
    tables != [] &&
    var next := NextCursor(Page(tables[0], cursor, limit), limit);
    next.None? || Ends(tables[1..], next, limit)
  }

  lemma PageMember(table: Table, cursor: Option<RowKey>, limit: nat, r: RowKey)
    ensures Descending(Page(table, cursor, limit))
    ensures r in Page(table, cursor, limit) ==> r in table && (cursor.Some? ==> Less(r, cursor.value))
    ensures r in Before(table, cursor) && r !in Page(table, cursor, limit) && limit > 0 ==>
      var next := NextCursor(Page(table, cursor, limit), limit); next.Some? && Less(r, next.value)
  {
    var rows := Ordered(Before(table, cursor));
    var page := Page(table, cursor, limit);
    assert forall i :: 0 <= i < |page| ==> page[i] == rows[i] && rows[i] in rows;
    if r in Before(table, cursor) && r !in page && limit > 0 {
      var i :| 0 <= i < |rows| && rows[i] == r;
      assert i >= |page|;
    }
  }

  /** Whatever happens to the table between pages, rows come strictly descending, so no row is returned twice. */
  lemma {:induction false} NoRowTwice(tables: seq<Table>, cursor: Option<RowKey>, limit: nat)
    ensures Descending(Walk(tables, cursor, limit))
    ensures forall r :: r in Walk(tables, cursor, limit) ==> cursor.Some? ==> Less(r, cursor.value)
  {
    hide Page;
    if tables != [] {
      var page := Page(tables[0], cursor, limit);
      var next := NextCursor(page, limit);
      forall r ensures r in page ==> cursor.Some? ==> Less(r, cursor.value) { PageMember(tables[0], cursor, limit, r); }
      assert Descending(page) by { PageMember(tables[0], cursor, limit, RowKey(0, 0)); }
      if next.Some? {
        var rest := Walk(tables[1..], next, limit);
        NoRowTwice(tables[1..], next, limit);
        forall i, j | 0 <= i < |page| && 0 <= j < |rest| ensures Less(rest[j], page[i]) {
          assert rest[j] in rest;
          assert i < |page| - 1 ==> Less(page[|page| - 1], page[i]);
        }
        assert page[|page| - 1] in page;
        forall r | r in rest && cursor.Some? ensures Less(r, cursor.value) { assert Less(r, page[|page| - 1]); }
      }
    }
  }

  /** Page `i` of the walk, empty once the walk has ended. */
  function PageAt(tables: seq<Table>, cursor: Option<RowKey>, limit: nat, i: nat): seq<RowKey>
    requires i < |tables|
  {
    var page := Page(tables[0], cursor, limit);
    var next := NextCursor(page, limit);
    if i == 0 then page else if next.None? then [] else PageAt(tables[1..], next, limit, i - 1)
  }

  /** Every returned row is on one of the pages, and was in the table from which that page was read. */
  lemma {:induction false} OnlyPresentRows(tables: seq<Table>, cursor: Option<RowKey>, limit: nat, r: RowKey)
    returns (i: nat)
    requires r in Walk(tables, cursor, limit)
    ensures i < |tables| && r in PageAt(tables, cursor, limit, i) && r in tables[i]
  {
    hide Page;
    i := 0;
    PageMember(tables[0], cursor, limit, r);
    var next := NextCursor(Page(tables[0], cursor, limit), limit);
    if r !in Page(tables[0], cursor, limit) {
      var j := OnlyPresentRows(tables[1..], next, limit, r);
      i := j + 1;
    }
  }

  /** Once the walk has ended, every row that was present throughout has been returned. */
  lemma {:induction false} NoRowMissed(tables: seq<Table>, cursor: Option<RowKey>, limit: nat, r: RowKey)
    requires limit > 0 && Ends(tables, cursor, limit)
    requires (forall i :: 0 <= i < |tables| ==> r in tables[i]) && (cursor.Some? ==> Less(r, cursor.value))
    ensures r in Walk(tables, cursor, limit)
  {
    hide Page;
    PageMember(tables[0], cursor, limit, r);
    assert r in Before(tables[0], cursor);
    var next := NextCursor(Page(tables[0], cursor, limit), limit);
    if r !in Page(tables[0], cursor, limit) {
      assert forall i :: 0 <= i < |tables[1..]| ==> tables[1..][i] == tables[i + 1];
      NoRowMissed(tables[1..], next, limit, r);
    }
  }

  // ---------------------------------------------------------------- a walk over a fixed table

  ghost predicate SameRows(rows: seq<RowKey>, s: Table) {
    Descending(rows) && forall r :: r in rows <==> r in s
  }

  lemma HeadIsNewest(rows: seq<RowKey>, s: Table)
    requires SameRows(rows, s) && rows != []
    ensures s != {} && Newest(s) == rows[0] && SameRows(rows[1..], s - {rows[0]})
  {
    assert rows[0] in rows;
    var m := Newest(s);
    var i :| 0 <= i < |rows| && rows[i] == m;
    if rows[0] != m { SmallerIsLater(rows, i, 0); }
    forall r ensures r in rows[1..] <==> r in s - {m} {
      if r in rows[1..] {
        var j :| 0 <= j < |rows[1..]| && rows[1..][j] == r;
        assert rows[j + 1] == r;
      }
      if r in s - {m} {
        var j :| 0 <= j < |rows| && rows[j] == r;
        assert rows[1..][j - 1] == r;
      }
    }
    assert forall i :: 0 <= i < |rows[1..]| ==> rows[1..][i] == rows[i + 1];
  }

  /** A strictly descending sequence is determined by its rows. */
  lemma {:induction false} OrderedUnique(rows: seq<RowKey>, s: Table)
    requires SameRows(rows, s)
    ensures rows == Ordered(s)
  {
    hide Less;
    if rows == [] {
      if s != {} { var r := Pick(s); }
    } else {
      HeadIsNewest(rows, s);
      OrderedUnique(rows[1..], s - {rows[0]});
    }
  }

  /** Behind an element of a descending sequence are exactly the smaller ones. */
  lemma BehindIsSmaller(rows: seq<RowKey>, n: nat, r: RowKey)
    requires Descending(rows) && 0 < n <= |rows|
    ensures r in rows[n..] <==> r in rows && Less(r, rows[n - 1])
  {
    if r in rows[n..] {
      var j :| 0 <= j < |rows[n..]| && rows[n..][j] == r;
      assert rows[n + j] == r;
    }
    if r in rows && Less(r, rows[n - 1]) {
      var j :| 0 <= j < |rows| && rows[j] == r;
      SmallerIsLater(rows, n - 1, j);
      assert rows[n..][j - n] == r;
    }
  }

  /** What a full page leaves is exactly the rest of the order. */
  lemma RestOfOrder(table: Table, cursor: Option<RowKey>, limit: nat)
    requires 0 < limit <= |Ordered(Before(table, cursor))|
    ensures var rows := Ordered(Before(table, cursor));
            Ordered(Before(table, Some(rows[limit - 1]))) == rows[limit..]
  {
    var rows := Ordered(Before(table, cursor));
    var last := rows[limit - 1];
    assert last in rows;
    hide Ordered;
    forall r ensures r in rows[limit..] <==> r in Before(table, Some(last)) {
      BehindIsSmaller(rows, limit, r);
    }
    assert Descending(rows[limit..]) by {
      assert forall i :: 0 <= i < |rows| - limit ==> rows[limit..][i] == rows[limit + i];
    }
    hide Before, Descending;
    OrderedUnique(rows[limit..], Before(table, Some(last)));
  }

  function Repeat(table: Table, n: nat): (ts: seq<Table>)
    ensures |ts| == n && forall i :: 0 <= i < n ==> ts[i] == table
  {
    seq(n, i requires 0 <= i < n => table)
  }

  /** Full pages, then one that is not full. */
  function PagesNeeded(rows: nat, limit: nat): nat
    requires limit > 0
  {
    if rows < limit then 1 else 1 + PagesNeeded(rows - limit, limit)
  }

  /** The first step of a walk. */
  lemma WalkFirst(tables: seq<Table>, cursor: Option<RowKey>, limit: nat)
    requires tables != []
    ensures var page := Page(tables[0], cursor, limit);
            var next := NextCursor(page, limit);
            && Walk(tables, cursor, limit) == page + (if next.None? then [] else Walk(tables[1..], next, limit))
            && (Ends(tables, cursor, limit) <==> next.None? || Ends(tables[1..], next, limit))
  {
  }

  /** On a fixed table the pages concatenate to the full descending order, and the walk ends. */
  lemma {:induction false} FixedTable(table: Table, cursor: Option<RowKey>, limit: nat, n: nat)
    requires limit > 0 && n >= PagesNeeded(|Ordered(Before(table, cursor))|, limit)
    ensures Ends(Repeat(table, n), cursor, limit)
    ensures Walk(Repeat(table, n), cursor, limit) == Ordered(Before(table, cursor))
    decreases n
  {
    hide Before, Ordered, Walk, Ends;
    var tables := Repeat(table, n);
    var rows := Ordered(Before(table, cursor));
    assert tables[0] == table;
    assert tables[1..] == Repeat(table, n - 1);
    WalkFirst(tables, cursor, limit);
    var page := Page(table, cursor, limit);
    if |rows| >= limit {
      assert page == rows[..limit];
      RestOfOrder(table, cursor, limit);
      FixedTable(table, Some(rows[limit - 1]), limit, n - 1);
      assert rows == rows[..limit] + rows[limit..];
    } else {
      assert page == rows;
    }
  }

  /** The order is newest first, and by falling position of the key within one time. */
  lemma NewestFirst(s: Table, i: nat, j: nat)
    requires i < j < |Ordered(s)|
    ensures var a, b := Ordered(s)[i], Ordered(s)[j];
            a.ts > b.ts || (a.ts == b.ts && a.position > b.position)
  {
  }

  /** A page holds at most `limit` rows, the newest before the cursor; there is a next page iff it is full. */
  lemma PageIsNewest(table: Table, cursor: Option<RowKey>, limit: nat)
    ensures var page := Page(table, cursor, limit);
            && |page| == (if |Before(table, cursor)| < limit then |Before(table, cursor)| else limit)
            && page <= Ordered(Before(table, cursor))
            && (limit > 0 ==> (NextCursor(page, limit).Some? <==> |page| == limit))
  {
    OrderedSize(Before(table, cursor));
  }

  lemma {:induction false} OrderedSize(s: Table)
    ensures |Ordered(s)| == |s|
    decreases s
  {
    if s != {} { OrderedSize(s - {Newest(s)}); }
  }
}
