/** Keyset pages whose cursors travel as text (`next_cursor`, `decode_cursor`). */
module Pagination {
  import opened Prelude
  import opened Keyset
  import Strings
  import Cursor

  /**
   How rows and texts correspond: the ISO text of each time, the key text at each position of the collation, and where
   a text that comes back stands.
   */
  datatype Collation = Collation(timeText: int -> string, timeOf: string -> int,
                                 keyText: int -> string, positionOf: string -> int)

  /** Times have no bar in their text and read back as written; each key text stands where it stands. */
  ghost predicate Consistent(c: Collation) {
    && (forall t :: Cursor.BAR !in c.timeText(t) && c.timeOf(c.timeText(t)) == t)
    && (forall p :: c.positionOf(c.keyText(p)) == p)
  }

  function Encoded(c: Collation, r: RowKey): string {
    Cursor.Encode(c.timeText(r.ts), c.keyText(r.position))
  }

  /** Where the next page starts: a row, the beginning for no cursor, or an error. */
  datatype Position = After(row: RowKey) | Beginning | BadCursor

  function Decoded(c: Collation, cursor: string): Position {
    match Cursor.Decode(cursor)
    case NoCursor => Beginning
    case Invalid => BadCursor
    case At(ts, key) => After(RowKey(c.timeOf(ts), c.positionOf(key)))
  }

  /** The key is not lost or moved by the strip: what is left of it stands at the same position. */
  predicate Survives(c: Collation, r: RowKey) {
    var key := Strings.Strip(c.keyText(r.position));
    key != "" && c.positionOf(key) == r.position
  }

  /** A cursor comes back as the row it was made from exactly when its key survives the strip. */
  lemma CursorReturnsIff(c: Collation, r: RowKey)
    requires Consistent(c)
    ensures Decoded(c, Encoded(c, r)) == After(r) <==> Survives(c, r)
  {
    hide Cursor.Decode, Cursor.Encode, Strings.Strip;
    Cursor.DecodeOfEncode(c.timeText(r.ts), c.keyText(r.position));
  }

  /** In particular when it has no surrounding whitespace. */
  lemma PlainKeySurvives(c: Collation, r: RowKey)
    requires Consistent(c)
    requires var key := c.keyText(r.position);
             key != "" && !Strings.IsSpace(key[0]) && !Strings.IsSpace(key[|key| - 1])
    ensures Survives(c, r)
  {
    hide Strings.Strip, Strings.IsSpace;
    Strings.StripKeepsIff(c.keyText(r.position));
  }

  /** A walk whose cursors are encoded by the server and decoded again; a bad cursor ends it. */
  function TextWalk(c: Collation, tables: seq<Table>, cursor: Option<RowKey>, limit: nat): seq<RowKey> {
    if tables == [] then []
    else
      var page := Page(tables[0], cursor, limit);
      var next := NextCursor(page, limit);
      page + if next.None? then []
             else match Decoded(c, Encoded(c, next.value))
               case After(row) => TextWalk(c, tables[1..], Some(row), limit)
               case Beginning => TextWalk(c, tables[1..], None, limit)
               case BadCursor => []
  }

  /** When every key survives the strip, the walk over text cursors is the walk, so all that is proved of it holds. */
  lemma {:induction false} TextWalkIsWalk(c: Collation, tables: seq<Table>, cursor: Option<RowKey>, limit: nat)
    requires Consistent(c) && forall i, r :: 0 <= i < |tables| && r in tables[i] ==> Survives(c, r)
    ensures TextWalk(c, tables, cursor, limit) == Walk(tables, cursor, limit)
  {
    hide Page, Survives, Encoded, Decoded;
    if tables != [] {
      var page := Page(tables[0], cursor, limit);
      var next := NextCursor(page, limit);
      if next.Some? {
        PageMember(tables[0], cursor, limit, next.value);
        CursorReturnsIff(c, next.value);
        assert forall i :: 0 <= i < |tables[1..]| ==> tables[1..][i] == tables[i + 1];
        TextWalkIsWalk(c, tables[1..], next, limit);
      }
    }
  }

  lemma TwoPages(first: RowKey, second: RowKey)
    requires Less(second, first) && !Less(first, second)
    ensures Page({second, first}, None, 1) == [first] && Page({second, first}, Some(second), 1) == []
  {
    hide Ordered;
    assert Before({second, first}, None) == {second, first};
    assert Before({second, first}, Some(second)) == {};
    OrderedUnique([first, second], {second, first});
    OrderedUnique([], {});
  }

  /**
   A key that strips to another row's key makes the walk lose rows: "b " comes first, its cursor comes back as "b", and
   the row of "b" itself is never returned, however often the table is read.
   */
  lemma StrippedKeyIsSkipped(c: Collation, n: nat)
    requires Consistent(c) && c.keyText(1) == "b" && c.keyText(2) == "b " && n >= 1
    ensures var table := {RowKey(0, 1), RowKey(0, 2)};
            !Survives(c, RowKey(0, 2)) && TextWalk(c, Repeat(table, n), None, 1) == [RowKey(0, 2)]
  {
    var first, second := RowKey(0, 2), RowKey(0, 1);
    var table, tables := {second, first}, Repeat({second, first}, n);
    assert Strings.Strip("b ") == "b" by { assert "b "[..1] == "b"; }
    TwoPages(first, second);
    hide Page, Before, Strings.Strip, Cursor.Encode, Cursor.Decode;
    Cursor.DecodeOfEncode(c.timeText(0), "b ");
    assert Decoded(c, Encoded(c, first)) == After(second);
    hide Decoded, Encoded;
    if n > 1 {
      assert tables[1..][0] == table;
    }
  }
}
