/**
  The `expenses` table and the report query over it. A row is
  `(user_id, date, item, amount)`; the query returns `(date, item, amount)` of
  the rows owned by one user, optionally restricted to a date range. Rows come
  back in insertion order here; SQLite promises no order without `ORDER BY`,
  so nothing below relies on the order except where it says so.
 */
module Ledger {
  import opened Wrappers
  import opened Collation

  /**
    One row of `expenses`. `amount` is stored and returned but never computed
    on. `userId` is not checked against `users`.
   */
  datatype Expense = Expense(userId: int, date: string, item: string, amount: real)

  /** One result row of `SELECT date, item, amount`. */
  datatype Row = Row(date: string, item: string, amount: real)

  /** `date BETWEEN low AND high`, both ends included. */
  datatype DateRange = DateRange(low: string, high: string)

  /** The `WHERE` clause of the report query: an owner and possibly a date range. */
  datatype Query = Query(userId: int, range: Option<DateRange>)

  /** Python truthiness of an optional string argument: `None` and `""` are false. */
  predicate Truthy(s: Option<string>) {
    s.Some? && s.value != []
  }

  predicate Selects(q: Query, e: Expense) {
    && e.userId == q.userId
    && match q.range
       case None => true
       case Some(r) => TextLe(r.low, e.date) && TextLe(e.date, r.high)
  }

  function Project(e: Expense): Row {
    Row(e.date, e.item, e.amount)
  }

  /** Positions of the stored rows the query selects and that project to `r`. */
  ghost function Matching(table: seq<Expense>, q: Query, r: Row): set<nat> {
    set i: nat | i < |table| && Selects(q, table[i]) && Project(table[i]) == r
  }

  /** Appending a row adds its position to the matching positions exactly when it is selected and projects to `r`. */
  lemma MatchingAppend(init: seq<Expense>, e: Expense, q: Query)
    ensures forall r :: |Matching(init + [e], q, r)| ==
                         |Matching(init, q, r)| + if Selects(q, e) && Project(e) == r then 1 else 0
  {
    var table := init + [e];
    forall r
      ensures |Matching(table, q, r)| == |Matching(init, q, r)| + if Selects(q, e) && Project(e) == r then 1 else 0
    {
      var before := Matching(init, q, r);
      assert |init| !in before;
      if Selects(q, e) && Project(e) == r {
        assert Matching(table, q, r) == before + {|init|};
      } else {
        assert Matching(table, q, r) == before;
      }
    }
  }

  /**
    The rows the query selects, projected to `(date, item, amount)`, as
    `fetchall()` returns them: every selected stored row gives one result row,
    so a result row occurs exactly as often as stored rows project to it.
   */
  function Select(table: seq<Expense>, q: Query): (rows: seq<Row>)
    ensures |rows| <= |table|
    ensures forall r :: r in rows <==> exists i :: 0 <= i < |table| && Selects(q, table[i]) && Project(table[i]) == r
    ensures forall r :: multiset(rows)[r] == |Matching(table, q, r)|
  {
    if table == [] then
      assert forall r :: Matching(table, q, r) == {};
      []
    else
      var init := table[..|table| - 1];
      var last := table[|table| - 1];
      var rows := Select(init, q) + if Selects(q, last) then [Project(last)] else [];
      assert forall i :: 0 <= i < |init| ==> init[i] == table[i];
      assert init + [last] == table;
      MatchingAppend(init, last, q);
      rows
  }

  /** Two identical selected expenses give two report rows, in any order `fetchall()` returns them. */
  lemma DuplicateRowsKept(e: Expense, q: Query)
    requires Selects(q, e)
    ensures |Select([e, e], q)| == 2
    ensures multiset(Select([e, e], q))[Project(e)] == 2
  {
    assert Matching([e, e], q, Project(e)) == {0, 1};
  }

  /** Appending a row adds its projection at the end when the query selects it, and nothing otherwise. */
  lemma SelectAppend(table: seq<Expense>, e: Expense, q: Query)
    ensures Select(table + [e], q) == Select(table, q) + if Selects(q, e) then [Project(e)] else []
  {
    assert (table + [e])[..|table|] == table;
  }

  /** The query distributes over a table split in two: rows of each part keep their order. */
  lemma {:induction false} SelectConcat(a: seq<Expense>, b: seq<Expense>, q: Query)
    ensures Select(a + b, q) == Select(a, q) + Select(b, q)
  {
    if b == [] {
      assert a + b == a;
    } else {
      var init := b[..|b| - 1];
      var last := b[|b| - 1];
      assert a + b == (a + init) + [last];
      assert b == init + [last];
      SelectConcat(a, init, q);
      SelectAppend(a + init, last, q);
      SelectAppend(init, last, q);
    }
  }

  /** Adding another user's expense never changes what a user's report shows. */
  lemma OtherUsersInvisible(table: seq<Expense>, e: Expense, q: Query)
    requires e.userId != q.userId
    ensures Select(table + [e], q) == Select(table, q)
  {
    SelectAppend(table, e, q);
  }

  /** A query on a user who owns no row returns nothing. */
  lemma {:induction false} SelectNoOwnedRows(table: seq<Expense>, q: Query)
    requires forall i :: 0 <= i < |table| ==> table[i].userId != q.userId
    ensures Select(table, q) == []
  {
    if table != [] {
      SelectNoOwnedRows(table[..|table| - 1], q);
    }
  }

  /** Restricting to a date range returns no more rows, and only rows the owner filter alone returns. */
  lemma {:induction false} RangeNarrows(table: seq<Expense>, u: int, r: DateRange)
    ensures |Select(table, Query(u, Some(r)))| <= |Select(table, Query(u, None))|
    ensures forall x :: x in Select(table, Query(u, Some(r))) ==> x in Select(table, Query(u, None))
  {
    if table != [] {
      RangeNarrows(table[..|table| - 1], u, r);
    }
  }

  /**
    After a user's first expense, a query over the range that holds its date
    returns exactly that row, and a query over a later range returns nothing.
   */
  lemma FirstExpenseExample(table: seq<Expense>, u: int)
    requires forall i :: 0 <= i < |table| ==> table[i].userId != u
    ensures var t := table + [Expense(u, "2024-01-01", "coffee", 3.5)];
            && Select(t, Query(u, Some(DateRange("2024-01-01", "2024-01-31")))) == [Row("2024-01-01", "coffee", 3.5)]
            && Select(t, Query(u, Some(DateRange("2024-02-01", "2024-02-28")))) == []
  {
    var e := Expense(u, "2024-01-01", "coffee", 3.5);
    var jan := Query(u, Some(DateRange("2024-01-01", "2024-01-31")));
    var feb := Query(u, Some(DateRange("2024-02-01", "2024-02-28")));
    SelectNoOwnedRows(table, jan);
    SelectNoOwnedRows(table, feb);
    SelectAppend(table, e, jan);
    SelectAppend(table, e, feb);
    Reflexive("2024-01-01");
    IsoDateExamples();
  }
}
