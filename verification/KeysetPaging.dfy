/**
 The derived cursor of the keyset-paginated listings (machine.go, process_read.go): the last id of
 a full page, nil otherwise. Following it walks a stable collection.
 */
module KeysetPaging {
  import opened Wrappers
  import EntitlementCache

  type Id = string

  /** Where the rows after `cursor` begin. */
  function After(rows: seq<Id>, cursor: Option<Id>): (i: nat)
    ensures i <= |rows|
  {
    match cursor
    case None => 0
    case Some(id) => IndexAfter(rows, id, 0)
  }

  function IndexAfter(rows: seq<Id>, id: Id, from: nat): (i: nat)
    requires from <= |rows|
    ensures i <= |rows|
    decreases |rows| - from
  {
    if from == |rows| then |rows| else if rows[from] == id then from + 1 else IndexAfter(rows, id, from + 1)
  }

  /** The server's page: the rows after the cursor, up to the clamped limit. */
  function ServerPage(rows: seq<Id>, limit: int, cursor: Option<Id>): seq<Id> {
    var rest := rows[After(rows, cursor)..];
    var n := EntitlementCache.Clamped(limit);
    if |rest| <= n then rest else rest[..n]
  }

  datatype Page = Page(items: seq<Id>, nextCursor: Option<Id>)

  /** `ListComponents` and `ListMachineProcesses`: the page, and the cursor derived from it. */
  function ListPage(rows: seq<Id>, limit: int, cursor: Option<Id>): Page {
    var asked := EntitlementCache.EffectivePageLimit(limit);
    var items := ServerPage(rows, asked, cursor);
    Page(items, if |items| == asked then Some(items[|items| - 1]) else None)
  }

  ghost predicate DistinctIds(rows: seq<Id>) {
    forall i, j :: 0 <= i < j < |rows| ==> rows[i] != rows[j]
  }

  lemma {:induction false} IndexAfterRow(rows: seq<Id>, k: nat, from: nat)
    requires DistinctIds(rows) && from <= k < |rows|
    ensures IndexAfter(rows, rows[k], from) == k + 1
    decreases k - from
  {
    if from < k { IndexAfterRow(rows, k, from + 1); }
  }

  lemma PageIsStretch(rows: seq<Id>, limit: int, cursor: Option<Id>)
    ensures var items, from := ServerPage(rows, limit, cursor), After(rows, cursor);
            from + |items| <= |rows| && items == rows[from..from + |items|]
  {
  }

  // A full page leaves a cursor to its last row.
  lemma CursorAdvances(rows: seq<Id>, limit: int, cursor: Option<Id>)
    requires DistinctIds(rows)
    ensures var page, from := ListPage(rows, limit, cursor), After(rows, cursor);
            && from + |page.items| <= |rows| && page.items == rows[from..from + |page.items|]
            && (page.nextCursor.Some? ==> page.items != [] && After(rows, page.nextCursor) == from + |page.items|)
  {
    PageIsStretch(rows, EntitlementCache.EffectivePageLimit(limit), cursor);
    hide ServerPage, IndexAfter;
    var page, from := ListPage(rows, limit, cursor), After(rows, cursor);
    if page.nextCursor.Some? {
      assert page.items[|page.items| - 1] == rows[from + |page.items| - 1];
      IndexAfterRow(rows, from + |page.items| - 1, 0);
    }
  }

  /** What a caller collects by following NextCursor from `cursor` until it is nil. */
  function Walk(rows: seq<Id>, limit: int, cursor: Option<Id>): seq<Id>
    requires DistinctIds(rows)
    decreases |rows| - After(rows, cursor)
  {
    CursorAdvances(rows, limit, cursor);
    var page := ListPage(rows, limit, cursor);
    if page.nextCursor.None? then page.items else page.items + Walk(rows, limit, page.nextCursor)
  }

  lemma {:induction false} WalkCollectsTheRest(rows: seq<Id>, limit: int, cursor: Option<Id>)
    requires DistinctIds(rows) && EntitlementCache.EffectivePageLimit(limit) <= 100
    ensures Walk(rows, limit, cursor) == rows[After(rows, cursor)..]
    decreases |rows| - After(rows, cursor)
  {
    CursorAdvances(rows, limit, cursor);
    var page, from := ListPage(rows, limit, cursor), After(rows, cursor);
    if page.nextCursor.Some? {
      WalkCollectsTheRest(rows, limit, page.nextCursor);
      assert rows[from..] == page.items + rows[from + |page.items|..];
    }
  }

  /**
   Following NextCursor from nil visits every row of a stable collection once, in order, and stops:
   exactly when the limit asked for is one the server honours, or the collection fits one page. A
   limit above 100 is clamped by the server, so its full pages look short and yield no cursor.
   */
  lemma WalkIsCompleteExactly(rows: seq<Id>, limit: int)
    requires DistinctIds(rows)
    ensures Walk(rows, limit, None) == rows <==> (limit <= 100 || |rows| <= 100)
  {
    if limit <= 100 {
      WalkCollectsTheRest(rows, limit, None);
    } else {
      assert ListPage(rows, limit, None).nextCursor.None?;
    }
  }

  /** The first page: 100 rows when no limit is set, else as many as asked for, up to the server's 100. */
  lemma FirstPageExactly(rows: seq<Id>, limit: int)
    ensures var n := if limit <= 0 || limit > 100 then 100 else limit;
            ListPage(rows, limit, None).items == if |rows| <= n then rows else rows[..n]
  {
    assert rows[0..] == rows;
  }

  /** `n` rows, no two of them alike. */
  function SomeRows(n: nat): (rows: seq<Id>)
    ensures |rows| == n && forall i :: 0 <= i < n ==> |rows[i]| == i
  {
    seq(n, i requires 0 <= i < n => seq(i, _ => 'a'))
  }

  /** 101 rows under a limit of 101: the walk stops after the 100 the server sends. */
  lemma WalkCanStopEarly()
    ensures var rows := SomeRows(101);
            DistinctIds(rows) && Walk(rows, 101, None) == rows[..100] && rows[..100] != rows
  {
    var rows := SomeRows(101);
    assert DistinctIds(rows) by {
      forall i, j | 0 <= i < j < 101 ensures rows[i] != rows[j] { assert |rows[i]| == i && |rows[j]| == j; }
    }
    assert ListPage(rows, 101, None).nextCursor.None?;
    assert rows[0..] == rows;
  }
}
