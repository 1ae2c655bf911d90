/** The merge step of the fetchers: the per-plan pieces are concatenated in plan
    order, stably sorted by timestamp, and of rows sharing a timestamp only the
    last is kept. Timestamps are integers; the row values are opaque. */
module Series {

  /** One row of a provider response: a timestamp and the variables' values. */
  datatype Row<V> = Row(time: int, values: V)

  /** `pd.concat(pieces)`: the pieces one after another, in plan order. */
  function Concat<V(==)>(pieces: seq<seq<Row<V>>>): seq<Row<V>>
  {
    if pieces == [] then []
    else Concat(pieces[..|pieces| - 1]) + pieces[|pieces| - 1]
  }

  function Timestamps<V>(rows: seq<Row<V>>): set<int>
  {
    set i | 0 <= i < |rows| :: rows[i].time
  }

  lemma TimestampsAppend<V>(a: seq<Row<V>>, b: seq<Row<V>>)
    ensures Timestamps(a + b) == Timestamps(a) + Timestamps(b)
  {
    forall t | t in Timestamps(a) ensures t in Timestamps(a + b) {
      var i :| 0 <= i < |a| && a[i].time == t;
      assert (a + b)[i] == a[i];
    }
    forall t | t in Timestamps(b) ensures t in Timestamps(a + b) {
      var i :| 0 <= i < |b| && b[i].time == t;
      assert (a + b)[|a| + i] == b[i];
    }
    forall t | t in Timestamps(a + b) ensures t in Timestamps(a) + Timestamps(b) {
      var i :| 0 <= i < |a + b| && (a + b)[i].time == t;
      if i < |a| {
        assert (a + b)[i] == a[i];
      } else {
        assert (a + b)[i] == b[i - |a|];
      }
    }
  }

  /** The concatenation holds the timestamps of every piece and no others. */
  lemma {:induction false} ConcatTimestamps<V>(pieces: seq<seq<Row<V>>>)
    ensures forall t :: t in Timestamps(Concat(pieces)) <==>
              exists k :: 0 <= k < |pieces| && t in Timestamps(pieces[k])
  {
    if pieces != [] {
      var n := |pieces| - 1;
      ConcatTimestamps(pieces[..n]);
      TimestampsAppend(Concat(pieces[..n]), pieces[n]);
      forall t | t in Timestamps(Concat(pieces))
        ensures exists k :: 0 <= k < |pieces| && t in Timestamps(pieces[k])
      {
        if t !in Timestamps(pieces[n]) {
          var k :| 0 <= k < n && t in Timestamps(pieces[..n][k]);
          assert pieces[..n][k] == pieces[k];
        }
      }
      forall t, k | 0 <= k < |pieces| && t in Timestamps(pieces[k])
        ensures t in Timestamps(Concat(pieces))
      {
        if k < n {
          assert pieces[..n][k] == pieces[k];
        }
      }
    }
  }

  predicate Ascending<V(==)>(rows: seq<Row<V>>)
  {
    forall i, j :: 0 <= i < j < |rows| ==> rows[i].time <= rows[j].time
  }

  /** Sorted with no timestamp twice: the shape of a merged series. */
  predicate StrictlyAscending<V(==)>(rows: seq<Row<V>>)
  {
    forall i, j :: 0 <= i < j < |rows| ==> rows[i].time < rows[j].time
  }

  /** The reference for "last one wins": reading the rows in order into a
      dictionary keyed by timestamp, each row overwriting earlier ones. */
  function Latest<V(==)>(rows: seq<Row<V>>): map<int, V>
  {
    if rows == [] then map[]
    else
      var n := |rows| - 1;
      Latest(rows[..n])[rows[n].time := rows[n].values]
  }

  /** The rows carrying timestamp `t`, in their order in `rows`. */
  function At<V(==)>(rows: seq<Row<V>>, t: int): seq<Row<V>>
  {
    if rows == [] then []
    else
      var n := |rows| - 1;
      At(rows[..n], t) + (if rows[n].time == t then [rows[n]] else [])
  }

  /** Index of the last row with timestamp `t`, or -1 when there is none. */
  function LastIndex<V(==)>(rows: seq<Row<V>>, t: int): (k: int)
    ensures -1 <= k < |rows|
    ensures k >= 0 ==> rows[k].time == t
    ensures forall j :: k < j < |rows| ==> rows[j].time != t
  {
    if rows == [] then -1
    else if rows[|rows| - 1].time == t then |rows| - 1
    else LastIndex(rows[..|rows| - 1], t)
  }

  // ---------------------------------------------------------------- sorting

  /** Place `x` after every row of `sorted` whose timestamp is not larger. */
  function Insert<V(==)>(sorted: seq<Row<V>>, x: Row<V>): (r: seq<Row<V>>)
    requires Ascending(sorted)
    ensures Ascending(r)
    ensures multiset(r) == multiset(sorted) + multiset{x}
    ensures forall y :: y in r ==> y in sorted || y == x
  {
    if sorted == [] || sorted[|sorted| - 1].time <= x.time then
      AscendingSnoc(sorted, x);
      sorted + [x]
    else
      var n := |sorted| - 1;
      var front := Insert(sorted[..n], x);
      assert sorted == sorted[..n] + [sorted[n]];
      assert forall y :: y in sorted[..n] ==> y.time <= sorted[n].time;
      AscendingSnoc(front, sorted[n]);
      front + [sorted[n]]
  }

  lemma AscendingSnoc<V>(rows: seq<Row<V>>, x: Row<V>)
    requires Ascending(rows)
    requires forall y :: y in rows ==> y.time <= x.time
    ensures Ascending(rows + [x])
  {
    forall i, j | 0 <= i < j < |rows| + 1
      ensures (rows + [x])[i].time <= (rows + [x])[j].time
    {
      assert rows[i] in rows;
    }
  }

  /** `sort_index()` taken as a stable sort (insertion sort). */
  function SortByTime<V(==)>(rows: seq<Row<V>>): (r: seq<Row<V>>)
    ensures Ascending(r)
    ensures multiset(r) == multiset(rows)
  {
    if rows == [] then []
    else
      var n := |rows| - 1;
      assert rows == rows[..n] + [rows[n]];
      Insert(SortByTime(rows[..n]), rows[n])
  }

  lemma {:induction false} AtAppend<V>(a: seq<Row<V>>, b: seq<Row<V>>, t: int)
    ensures At(a + b, t) == At(a, t) + At(b, t)
  {
    if b != [] {
      var n := |b| - 1;
      assert (a + b)[..|a| + n] == a + b[..n];
      AtAppend(a, b[..n], t);
    } else {
      assert a + b == a;
    }
  }

  lemma AtSnoc<V>(rows: seq<Row<V>>, y: Row<V>, t: int)
    ensures At(rows + [y], t) == At(rows, t) + (if y.time == t then [y] else [])
  {
    assert (rows + [y])[..|rows|] == rows;
  }

  lemma {:induction false} InsertStable<V>(sorted: seq<Row<V>>, x: Row<V>, t: int)
    requires Ascending(sorted)
    ensures At(Insert(sorted, x), t) == At(sorted + [x], t)
  {
    if !(sorted == [] || sorted[|sorted| - 1].time <= x.time) {
      var n := |sorted| - 1;
      var init, last := sorted[..n], sorted[n];
      var atX := if x.time == t then [x] else [];
      var atLast := if last.time == t then [last] else [];
      assert sorted == init + [last];
      calc {
        At(Insert(sorted, x), t);
        At(Insert(init, x) + [last], t);
        { AtSnoc(Insert(init, x), last, t); }
        At(Insert(init, x), t) + atLast;
        { InsertStable(init, x, t); AtSnoc(init, x, t); }
        At(init, t) + atX + atLast;
        { assert atX == [] || atLast == []; }
        At(init, t) + atLast + atX;
        { AtSnoc(init, last, t); }
        At(sorted, t) + atX;
        { AtSnoc(sorted, x, t); }
        At(sorted + [x], t);
      }
    }
  }

  /** The sort is stable: for every timestamp, its rows keep their relative order. */
  lemma {:induction false} SortStable<V>(rows: seq<Row<V>>, t: int)
    ensures At(SortByTime(rows), t) == At(rows, t)
  {
    if rows != [] {
      var n := |rows| - 1;
      var init, last := rows[..n], rows[n];
      calc {
        At(SortByTime(rows), t);
        At(Insert(SortByTime(init), last), t);
        { InsertStable(SortByTime(init), last, t); }
        At(SortByTime(init) + [last], t);
        { AtSnoc(SortByTime(init), last, t); SortStable(init, t); AtSnoc(init, last, t); }
        At(init + [last], t);
        { assert init + [last] == rows; }
        At(rows, t);
      }
    }
  }

  // ---------------------------------------------------------------- last wins

  /** `Latest` keeps, for each timestamp, the last of its rows. */
  lemma {:induction false} LatestIsLastAt<V>(rows: seq<Row<V>>, t: int)
    ensures t in Latest(rows) <==> At(rows, t) != []
    ensures t in Latest(rows) ==> Latest(rows)[t] == At(rows, t)[|At(rows, t)| - 1].values
  {
    if rows != [] {
      LatestIsLastAt(rows[..|rows| - 1], t);
    }
  }

  /** `Latest` keeps, for each timestamp, the row at its last occurrence. */
  lemma {:induction false} LatestIsLastOccurrence<V>(rows: seq<Row<V>>, t: int)
    ensures t in Latest(rows) <==> LastIndex(rows, t) >= 0
    ensures t in Latest(rows) ==> Latest(rows)[t] == rows[LastIndex(rows, t)].values
  {
    if rows != [] {
      var n := |rows| - 1;
      LatestIsLastOccurrence(rows[..n], t);
    }
  }

  lemma {:induction false} LatestKeys<V>(rows: seq<Row<V>>)
    ensures Latest(rows).Keys == Timestamps(rows)
  {
    if rows != [] {
      var n := |rows| - 1;
      LatestKeys(rows[..n]);
      assert rows == rows[..n] + [rows[n]];
      assert Timestamps(rows) == Timestamps(rows[..n]) + {rows[n].time};
    }
  }

  /** Reading `a + b` is reading `a`, then letting `b` overwrite. */
  lemma {:induction false} LatestAppend<V>(a: seq<Row<V>>, b: seq<Row<V>>)
    ensures Latest(a + b) == Latest(a) + Latest(b)
  {
    if b == [] {
      assert a + b == a;
    } else {
      var n := |b| - 1;
      LatestAppend(a, b[..n]);
      assert (a + b)[..|a| + n] == a + b[..n];
    }
  }

  lemma SortKeepsLatestAt<V>(rows: seq<Row<V>>, t: int)
    ensures (t in Latest(SortByTime(rows))) == (t in Latest(rows))
    ensures t in Latest(rows) ==> Latest(SortByTime(rows))[t] == Latest(rows)[t]
  {
    SortStable(rows, t);
    LatestIsLastAt(SortByTime(rows), t);
    LatestIsLastAt(rows, t);
  }

  lemma SortKeepsLatest<V>(rows: seq<Row<V>>)
    ensures Latest(SortByTime(rows)) == Latest(rows)
  {
    var a, b := Latest(SortByTime(rows)), Latest(rows);
    forall t ensures (t in a) == (t in b) && (t in b ==> a[t] == b[t]) {
      SortKeepsLatestAt(rows, t);
    }
  }

  // ---------------------------------------------------------------- dedup

  /** `~index.duplicated(keep="last")` on a sorted sequence: of each run of equal
      timestamps only the last row stays. */
  function DedupLast<V(==)>(sorted: seq<Row<V>>): (r: seq<Row<V>>)
    requires Ascending(sorted)
    ensures StrictlyAscending(r)
    ensures forall y :: y in r ==> y in sorted
  {
    if |sorted| <= 1 then sorted
    else if sorted[0].time == sorted[1].time then DedupLast(sorted[1..])
    else
      var rest := DedupLast(sorted[1..]);
      assert forall y :: y in rest ==> sorted[0].time < y.time by {
        forall y | y in rest ensures sorted[0].time < y.time {
          var k :| 0 <= k < |sorted[1..]| && sorted[1..][k] == y;
          assert sorted[k + 1] == y;
        }
      }
      [sorted[0]] + rest
  }

  lemma {:induction false} DedupKeepsLatest<V>(sorted: seq<Row<V>>)
    requires Ascending(sorted)
    ensures Latest(DedupLast(sorted)) == Latest(sorted)
  {
    if |sorted| > 1 {
      var rest := sorted[1..];
      DedupKeepsLatest(rest);
      LatestAppend([sorted[0]], rest);
      assert sorted == [sorted[0]] + rest;
      if sorted[0].time == sorted[1].time {
        LatestKeys(rest);
        assert rest[0] in rest;
        assert sorted[0].time in Latest(rest);
      } else {
        LatestAppend([sorted[0]], DedupLast(rest));
      }
    }
  }

  /** Rows with distinct timestamps are their own last-wins dictionary. */
  lemma {:induction false} LatestOfStrictlyAscending<V>(rows: seq<Row<V>>)
    requires StrictlyAscending(rows)
    ensures forall i :: 0 <= i < |rows| ==>
              rows[i].time in Latest(rows) && Latest(rows)[rows[i].time] == rows[i].values
  {
    if rows != [] {
      LatestOfStrictlyAscending(rows[..|rows| - 1]);
    }
  }

  lemma TimestampsEmpty<V>(rows: seq<Row<V>>)
    ensures Timestamps(rows) == {} <==> rows == []
  {
    if rows != [] {
      assert rows[0].time in Timestamps(rows);
    }
  }

  /** The last row of a strictly ascending series has its largest timestamp. */
  lemma LastIsLargest<V>(rows: seq<Row<V>>, t: int)
    requires StrictlyAscending(rows) && rows != []
    requires t in Timestamps(rows)
    ensures t <= rows[|rows| - 1].time
  {
    var i :| 0 <= i < |rows| && rows[i].time == t;
  }

  /** Dropping the last row of a strictly ascending series removes exactly its
      timestamp from the dictionary. */
  lemma DropLast<V>(rows: seq<Row<V>>)
    requires StrictlyAscending(rows) && rows != []
    ensures Latest(rows[..|rows| - 1]) == Latest(rows) - {rows[|rows| - 1].time}
  {
    var m := |rows| - 1;
    var init, last := rows[..m], rows[m];
    assert forall i :: 0 <= i < |init| ==> init[i].time < last.time;
    LatestKeys(init);
    assert last.time !in Latest(init);
    assert Latest(rows) == Latest(init)[last.time := last.values];
    UpdateThenRemove(Latest(init), last.time, last.values);
  }

  lemma UpdateThenRemove<V>(m: map<int, V>, k: int, v: V)
    requires k !in m
    ensures m[k := v] - {k} == m
  {
  }

  /** Two strictly ascending series with the same dictionary end in the same row. */
  lemma SameLastRow<V>(a: seq<Row<V>>, b: seq<Row<V>>)
    requires StrictlyAscending(a) && StrictlyAscending(b) && a != [] && b != []
    requires Latest(a) == Latest(b)
    ensures a[|a| - 1] == b[|b| - 1]
  {
    var m, n := |a| - 1, |b| - 1;
    LatestKeys(a);
    LatestKeys(b);
    assert a[m].time in Timestamps(a) && b[n].time in Timestamps(b);
    LastIsLargest(a, b[n].time);
    LastIsLargest(b, a[m].time);
    LatestOfStrictlyAscending(a);
    LatestOfStrictlyAscending(b);
  }

  /** A strictly ascending series is determined by its last-wins dictionary. */
  lemma {:induction false} StrictlyAscendingUnique<V>(a: seq<Row<V>>, b: seq<Row<V>>)
    requires StrictlyAscending(a) && StrictlyAscending(b)
    requires Latest(a) == Latest(b)
    ensures a == b
  {
    LatestKeys(a);
    LatestKeys(b);
    TimestampsEmpty(a);
    TimestampsEmpty(b);
    if a != [] {
      var m, n := |a| - 1, |b| - 1;
      SameLastRow(a, b);
      DropLast(a);
      DropLast(b);
      StrictlyAscendingUnique(a[..m], b[..n]);
      assert a == a[..m] + [a[m]];
      assert b == b[..n] + [b[n]];
    }
  }

  // ---------------------------------------------------------------- merge

  /** `concat(pieces).sort_index()` with duplicate timestamps dropped, keeping the last. */
  function Merge<V(==)>(pieces: seq<seq<Row<V>>>): (series: seq<Row<V>>)
    ensures StrictlyAscending(series)
    ensures Latest(series) == Latest(Concat(pieces))
  {
    var rows := Concat(pieces);
    SortKeepsLatest(rows);
    DedupKeepsLatest(SortByTime(rows));
    DedupLast(SortByTime(rows))
  }

  /** Every merged row is the row at the last occurrence of its timestamp in the
      concatenation, and every contributed timestamp appears. */
  lemma MergeKeepsLastOccurrence<V>(pieces: seq<seq<Row<V>>>)
    ensures Timestamps(Merge(pieces)) == Timestamps(Concat(pieces))
    ensures forall i :: 0 <= i < |Merge(pieces)| ==>
              LastIndex(Concat(pieces), Merge(pieces)[i].time) >= 0 &&
              Merge(pieces)[i] == Concat(pieces)[LastIndex(Concat(pieces), Merge(pieces)[i].time)]
  {
    var rows, series := Concat(pieces), Merge(pieces);
    LatestKeys(rows);
    LatestKeys(series);
    LatestOfStrictlyAscending(series);
    forall i | 0 <= i < |series|
      ensures LastIndex(rows, series[i].time) >= 0 &&
              series[i] == rows[LastIndex(rows, series[i].time)]
    {
      LatestIsLastOccurrence(rows, series[i].time);
    }
  }

  lemma ConcatPair<V>(first: seq<Row<V>>, second: seq<Row<V>>)
    ensures Concat([first]) == first
    ensures Concat([first, second]) == first + second
  {
    assert [first][..0] == [];
    assert [first, second][..1] == [first];
  }

  /** Merging a series alone, or with a copy of itself, changes nothing. */
  lemma MergeIdempotent<V>(series: seq<Row<V>>)
    requires StrictlyAscending(series)
    ensures Merge([series]) == series
    ensures Merge([series, series]) == series
  {
    ConcatPair(series, series);
    StrictlyAscendingUnique(Merge([series]), series);
    LatestAppend(series, series);
    assert Latest(series) + Latest(series) == Latest(series);
    StrictlyAscendingUnique(Merge([series, series]), series);
  }

  /** Where two pieces share a timestamp, the later piece's row is kept. */
  lemma LaterPieceWins<V>(earlier: seq<Row<V>>, later: seq<Row<V>>, t: int)
    requires t in Timestamps(later)
    ensures t in Latest(Merge([earlier, later])) && t in Latest(later)
    ensures Latest(Merge([earlier, later]))[t] == Latest(later)[t]
  {
    ConcatPair(earlier, later);
    LatestAppend(earlier, later);
    LatestKeys(later);
  }
}
