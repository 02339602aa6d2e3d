/** The query operations the store applies to its table: keeping the rows
    that satisfy a condition (`WHERE`), ordering them by timestamp
    (`ORDER BY timestamp ASC`) and cutting out one page (`OFFSET … LIMIT …`). */
module Table {
  import opened Models

  /** The order of `ORDER BY timestamp ASC` in SQLite: an empty timestamp
      sorts before every date. */
  predicate TsLeq(a: Option<Instant>, b: Option<Instant>) {
    a.None? || (b.Some? && a.value <= b.value)
  }

  predicate Ordered(rows: seq<MessageRow>) {
    forall j, k :: 0 <= j < k < |rows| ==> TsLeq(rows[j].timestamp, rows[k].timestamp)
  }

  /** The rows that satisfy `keep`, in table order. */
  function Filter(rows: seq<MessageRow>, keep: MessageRow -> bool): (r: seq<MessageRow>)
    ensures |r| <= |rows|
  {
    if rows == [] then []
    else (if keep(rows[0]) then [rows[0]] else []) + Filter(rows[1..], keep)
  }

  /** Filtering keeps each row that satisfies the condition as often as the
      table holds it, and no other row. */
  lemma {:induction false} FilterCount(rows: seq<MessageRow>, keep: MessageRow -> bool)
    ensures forall x :: multiset(Filter(rows, keep))[x] == if keep(x) then multiset(rows)[x] else 0
    ensures forall x :: x in Filter(rows, keep) <==> x in rows && keep(x)
  {
    if rows != [] {
      assert rows == [rows[0]] + rows[1..];
      FilterCount(rows[1..], keep);
      assert forall x :: x in Filter(rows, keep) <==> multiset(Filter(rows, keep))[x] > 0;
    }
  }

  /** Every row of an ordered table sorts no earlier than its first row. */
  lemma OrderedFirst(sorted: seq<MessageRow>, y: MessageRow)
    requires Ordered(sorted) && y in sorted
    ensures TsLeq(sorted[0].timestamp, y.timestamp)
  {
    var k :| 0 <= k < |sorted| && sorted[k] == y;
  }

  lemma OrderedTail(sorted: seq<MessageRow>)
    requires Ordered(sorted) && sorted != []
    ensures Ordered(sorted[1..])
  {
    var tail := sorted[1..];
    assert forall k :: 0 <= k < |tail| ==> tail[k] == sorted[k + 1];
  }

  /** A row that sorts no later than every row of an ordered table can be put
      in front of it. */
  lemma OrderedCons(x: MessageRow, sorted: seq<MessageRow>)
    requires Ordered(sorted)
    requires forall y :: y in sorted ==> TsLeq(x.timestamp, y.timestamp)
    ensures Ordered([x] + sorted)
  {
    var s := [x] + sorted;
    forall j, k | 0 <= j < k < |s|
      ensures TsLeq(s[j].timestamp, s[k].timestamp)
    {
      if j == 0 {
        assert s[k] in sorted;
      } else {
        assert s[j] == sorted[j - 1] && s[k] == sorted[k - 1];
      }
    }
  }

  /** Filtering keeps table order: what is kept from an ordered table is ordered. */
  lemma {:induction false} FilterOrdered(rows: seq<MessageRow>, keep: MessageRow -> bool)
    requires Ordered(rows)
    ensures Ordered(Filter(rows, keep))
  {
    if rows != [] {
      OrderedTail(rows);
      FilterOrdered(rows[1..], keep);
      if keep(rows[0]) {
        var f := Filter(rows[1..], keep);
        FilterCount(rows[1..], keep);
        forall y | y in f
          ensures TsLeq(rows[0].timestamp, y.timestamp)
        {
          OrderedFirst(rows, y);
        }
        OrderedCons(rows[0], f);
      }
    }
  }

  /** Filters with the same verdict on every row keep the same rows. */
  lemma {:induction false} FilterCongruent(rows: seq<MessageRow>, p: MessageRow -> bool, q: MessageRow -> bool)
    requires forall x :: x in rows ==> p(x) == q(x)
    ensures Filter(rows, p) == Filter(rows, q)
  {
    if rows != [] {
      assert forall x :: x in rows[1..] ==> x in rows;
      FilterCongruent(rows[1..], p, q);
    }
  }

  /** `x` placed in front of the first row that does not sort strictly
      before it. */
  function Insert(x: MessageRow, sorted: seq<MessageRow>): (r: seq<MessageRow>)
    ensures |r| == |sorted| + 1
  {
    if sorted == [] || TsLeq(x.timestamp, sorted[0].timestamp) then [x] + sorted
    else [sorted[0]] + Insert(x, sorted[1..])
  }

  /** Inserting adds exactly the one row. */
  lemma {:induction false} InsertCount(x: MessageRow, sorted: seq<MessageRow>)
    ensures multiset(Insert(x, sorted)) == multiset{x} + multiset(sorted)
  {
    if sorted != [] && !TsLeq(x.timestamp, sorted[0].timestamp) {
      assert sorted == [sorted[0]] + sorted[1..];
      InsertCount(x, sorted[1..]);
    }
  }

  /** Inserting into an ordered table keeps it ordered. */
  lemma {:induction false} InsertOrdered(x: MessageRow, sorted: seq<MessageRow>)
    requires Ordered(sorted)
    ensures Ordered(Insert(x, sorted))
  {
    if sorted == [] || TsLeq(x.timestamp, sorted[0].timestamp) {
      forall y | y in sorted
        ensures TsLeq(x.timestamp, y.timestamp)
      {
        OrderedFirst(sorted, y);
      }
      OrderedCons(x, sorted);
    } else {
      var head, tail := sorted[0], sorted[1..];
      OrderedTail(sorted);
      InsertOrdered(x, tail);
      InsertCount(x, tail);
      forall y | y in Insert(x, tail)
        ensures TsLeq(head.timestamp, y.timestamp)
      {
        assert y in multiset(Insert(x, tail));
        if y != x {
          assert y in tail;
          OrderedFirst(sorted, y);
        }
      }
      OrderedCons(head, Insert(x, tail));
    }
  }

  /** `ORDER BY timestamp ASC`: an insertion sort that puts each row in front
      of the rows with the same timestamp that come later in the table, so
      rows with equal timestamps stay in table order. */
  function Sort(rows: seq<MessageRow>): (r: seq<MessageRow>)
    ensures |r| == |rows|
  {
    if rows == [] then [] else Insert(rows[0], Sort(rows[1..]))
  }

  /** The sorted table is ordered and holds the same rows. */
  lemma {:induction false} SortOrdered(rows: seq<MessageRow>)
    ensures Ordered(Sort(rows))
    ensures multiset(Sort(rows)) == multiset(rows)
  {
    if rows != [] {
      assert rows == [rows[0]] + rows[1..];
      SortOrdered(rows[1..]);
      InsertOrdered(rows[0], Sort(rows[1..]));
      InsertCount(rows[0], Sort(rows[1..]));
    }
  }

  /** Sorting an ordered table changes nothing (the sort is stable). */
  lemma {:induction false} SortOfOrdered(rows: seq<MessageRow>)
    requires Ordered(rows)
    ensures Sort(rows) == rows
  {
    if rows != [] {
      OrderedTail(rows);
      SortOfOrdered(rows[1..]);
      assert rows == [rows[0]] + rows[1..];
    }
  }

  /** Filtering before or after inserting into an ordered table gives the same rows. */
  lemma {:induction false} FilterInsert(x: MessageRow, sorted: seq<MessageRow>, keep: MessageRow -> bool)
    requires Ordered(sorted)
    ensures Filter(Insert(x, sorted), keep)
            == if keep(x) then Insert(x, Filter(sorted, keep)) else Filter(sorted, keep)
  {
    var f := Filter(sorted, keep);
    if sorted == [] || TsLeq(x.timestamp, sorted[0].timestamp) {
      assert ([x] + sorted)[1..] == sorted;
      if keep(x) && f != [] {
        FilterCount(sorted, keep);
        assert f[0] in f;
        OrderedFirst(sorted, f[0]);
      }
    } else {
      var head, tail := sorted[0], sorted[1..];
      OrderedTail(sorted);
      FilterInsert(x, tail, keep);
      assert ([head] + Insert(x, tail))[1..] == Insert(x, tail);
      var ft := Filter(tail, keep);
      if keep(head) {
        assert f == [head] + ft;
        assert ([head] + ft)[1..] == ft;
      } else {
        assert f == ft;
      }
    }
  }

  /** Sorting commutes with filtering: the order of the kept rows does not
      depend on whether the rows were kept before or after sorting. */
  lemma {:induction false} FilterSort(rows: seq<MessageRow>, keep: MessageRow -> bool)
    ensures Filter(Sort(rows), keep) == Sort(Filter(rows, keep))
  {
    if rows != [] {
      var head, tail := rows[0], rows[1..];
      FilterSort(tail, keep);
      SortOrdered(tail);
      FilterInsert(head, Sort(tail), keep);
      var ft := Filter(tail, keep);
      if keep(head) {
        assert Filter(rows, keep) == [head] + ft;
        assert ([head] + ft)[1..] == ft;
        assert Sort([head] + ft) == Insert(head, Sort(ft));
      } else {
        assert Filter(rows, keep) == ft;
      }
    }
  }

  function Min(a: int, b: int): int {
    if a <= b then a else b
  }

  /** `OFFSET offset LIMIT limit`: at most `limit` rows, starting with the
      one at position `offset`; nothing when `offset` is past the end. */
  function Page(rows: seq<MessageRow>, offset: nat, limit: nat): (r: seq<MessageRow>)
    ensures |r| == if offset >= |rows| then 0 else Min(limit, |rows| - offset)
    ensures forall k :: 0 <= k < |r| ==> r[k] == rows[offset + k]
  {
    if offset >= |rows| then [] else rows[offset..Min(|rows|, offset + limit)]
  }

  /** Consecutive pages put together are one larger page: paging neither
      skips nor repeats a row. */
  lemma PagesTile(rows: seq<MessageRow>, offset: nat, a: nat, b: nat)
    ensures Page(rows, offset, a) + Page(rows, offset + a, b) == Page(rows, offset, a + b)
  {
    var p, q, r := Page(rows, offset, a), Page(rows, offset + a, b), Page(rows, offset, a + b);
    assert |p + q| == |r|;
    forall k | 0 <= k < |r|
      ensures (p + q)[k] == r[k]
    {
      if k >= |p| {
        assert q[k - |p|] == rows[offset + a + (k - |p|)];
      }
    }
  }

  /** No two rows share a primary key. */
  predicate UniqueIds(rows: seq<MessageRow>) {
    forall j, k :: 0 <= j < k < |rows| ==> rows[j].messageId != rows[k].messageId
  }

  predicate HasId(rows: seq<MessageRow>, id: string) {
    exists x :: x in rows && x.messageId == id
  }

  /** Appending a row keeps the keys unique exactly when its key is new. */
  lemma UniqueSnoc(rows: seq<MessageRow>, x: MessageRow)
    ensures UniqueIds(rows + [x]) <==> UniqueIds(rows) && !HasId(rows, x.messageId)
  {
    var s := rows + [x];
    assert forall k :: 0 <= k < |rows| ==> rows[k] == s[k];
    if UniqueIds(s) {
      forall y | y in rows
        ensures y.messageId != x.messageId
      {
        var k :| 0 <= k < |rows| && rows[k] == y;
        assert s[k] == y && s[|rows|] == x;
      }
    }
    if UniqueIds(rows) && !HasId(rows, x.messageId) {
      forall j, k | 0 <= j < k < |s|
        ensures s[j].messageId != s[k].messageId
      {
        if k == |rows| {
          assert s[j] in rows;
        }
      }
    }
  }

  /** Putting a row in front keeps the keys unique exactly when its key is new. */
  lemma UniqueCons(x: MessageRow, rows: seq<MessageRow>)
    ensures UniqueIds([x] + rows) <==> UniqueIds(rows) && !HasId(rows, x.messageId)
  {
    var s := [x] + rows;
    assert forall k :: 0 <= k < |rows| ==> rows[k] == s[k + 1];
    if UniqueIds(s) {
      forall y | y in rows
        ensures y.messageId != x.messageId
      {
        var k :| 0 <= k < |rows| && rows[k] == y;
        assert s[k + 1] == y && s[0] == x;
      }
      forall j, k | 0 <= j < k < |rows|
        ensures rows[j].messageId != rows[k].messageId
      {
        assert s[j + 1] == rows[j] && s[k + 1] == rows[k];
      }
    }
    if UniqueIds(rows) && !HasId(rows, x.messageId) {
      forall j, k | 0 <= j < k < |s|
        ensures s[j].messageId != s[k].messageId
      {
        if j == 0 {
          assert s[k] in rows;
        } else {
          assert s[j] == rows[j - 1] && s[k] == rows[k - 1];
        }
      }
    }
  }

  /** Filtering keeps the keys unique. */
  lemma {:induction false} FilterUnique(rows: seq<MessageRow>, keep: MessageRow -> bool)
    requires UniqueIds(rows)
    ensures UniqueIds(Filter(rows, keep))
  {
    if rows != [] {
      var head, tail := rows[0], rows[1..];
      assert rows == [head] + tail;
      UniqueCons(head, tail);
      FilterUnique(tail, keep);
      if keep(head) {
        var ft := Filter(tail, keep);
        FilterCount(tail, keep);
        assert !HasId(ft, head.messageId) by {
          forall y | y in ft
            ensures y.messageId != head.messageId
          {
            assert y in tail;
          }
        }
        UniqueCons(head, ft);
      }
    }
  }

  /** Inserting a row with a new key keeps the keys unique. */
  lemma {:induction false} InsertUnique(x: MessageRow, sorted: seq<MessageRow>)
    requires UniqueIds(sorted) && !HasId(sorted, x.messageId)
    ensures UniqueIds(Insert(x, sorted))
  {
    if sorted == [] || TsLeq(x.timestamp, sorted[0].timestamp) {
      UniqueCons(x, sorted);
    } else {
      var head, tail := sorted[0], sorted[1..];
      assert sorted == [head] + tail;
      UniqueCons(head, tail);
      assert !HasId(tail, x.messageId) by {
        forall y | y in tail
          ensures y.messageId != x.messageId
        {
          assert y in sorted;
        }
      }
      InsertUnique(x, tail);
      InsertCount(x, tail);
      var ins := Insert(x, tail);
      assert !HasId(ins, head.messageId) by {
        forall y | y in ins
          ensures y.messageId != head.messageId
        {
          assert y in multiset(ins);
          if y != x {
            assert y in tail;
          } else {
            assert head in sorted;
          }
        }
      }
      UniqueCons(head, ins);
    }
  }

  /** Sorting keeps the keys unique. */
  lemma {:induction false} SortUnique(rows: seq<MessageRow>)
    requires UniqueIds(rows)
    ensures UniqueIds(Sort(rows))
  {
    if rows != [] {
      var head, tail := rows[0], rows[1..];
      assert rows == [head] + tail;
      UniqueCons(head, tail);
      SortUnique(tail);
      SortOrdered(tail);
      var st := Sort(tail);
      assert !HasId(st, head.messageId) by {
        forall y | y in st
          ensures y.messageId != head.messageId
        {
          assert y in multiset(st);
          assert y in tail;
        }
      }
      InsertUnique(head, st);
    }
  }

  /** Pages that do not overlap in position share no key when the keys are
      unique. */
  lemma PagesDisjoint(rows: seq<MessageRow>, o1: nat, l1: nat, o2: nat, l2: nat)
    requires UniqueIds(rows) && o1 + l1 <= o2
    ensures forall x, y :: x in Page(rows, o1, l1) && y in Page(rows, o2, l2) ==> x.messageId != y.messageId
  {
    var p, q := Page(rows, o1, l1), Page(rows, o2, l2);
    forall x, y | x in p && y in q
      ensures x.messageId != y.messageId
    {
      var j :| 0 <= j < |p| && p[j] == x;
      var k :| 0 <= k < |q| && q[k] == y;
      assert rows[o1 + j] == x && rows[o2 + k] == y;
    }
  }
}
