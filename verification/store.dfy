/** The hosted table store as the services use it: a table is a sequence of
    rows, an `.eq(...)` chain is a predicate on rows, and each request is one
    atomic step that either applies completely or (when its `Link` is down)
    not at all.
 */
module Store {
  import opened Outcome

  /** A table after one request, together with what the request answered. */
  datatype Reply<R, T> = Reply(table: seq<R>, result: Result<T>)

  /** The rows that satisfy `keep`, in table order. */
  function Filter<R(!new)>(rows: seq<R>, keep: R -> bool): (kept: seq<R>)
    ensures |kept| <= |rows|
    ensures forall i :: 0 <= i < |kept| ==> keep(kept[i])
    decreases |rows|
  {
    if |rows| == 0 then []
    else (if keep(rows[0]) then [rows[0]] else []) + Filter(rows[1..], keep)
  }

  /** A filter keeps every satisfying row as often as the table holds it,
      and nothing else. */
  lemma {:induction false} FilterContents<R(!new)>(rows: seq<R>, keep: R -> bool)
    ensures forall x :: multiset(Filter(rows, keep))[x] == if keep(x) then multiset(rows)[x] else 0
    ensures forall x :: x in Filter(rows, keep) <==> x in rows && keep(x)
    decreases |rows|
  {
    if |rows| > 0 {
      FilterContents(rows[1..], keep);
      assert rows == [rows[0]] + rows[1..];
    }
  }

  /** Whether no row satisfies `hit`. */
  predicate NoneMatch<R(!new)>(rows: seq<R>, hit: R -> bool) {
    forall i :: 0 <= i < |rows| ==> !hit(rows[i])
  }

  /** A filter keeps nothing exactly when no row satisfies it. */
  lemma FilterEmpty<R(!new)>(rows: seq<R>, keep: R -> bool)
    requires Filter(rows, keep) == []
    ensures NoneMatch(rows, keep)
  {
  }

  lemma {:induction false} FilterAppend<R(!new)>(rows: seq<R>, x: R, keep: R -> bool)
    ensures Filter(rows + [x], keep) == Filter(rows, keep) + (if keep(x) then [x] else [])
    decreases |rows|
  {
    if |rows| == 0 {
      assert rows + [x] == [x];
    } else {
      var head := if keep(rows[0]) then [rows[0]] else [];
      var tail := if keep(x) then [x] else [];
      assert (rows + [x])[0] == rows[0];
      assert (rows + [x])[1..] == rows[1..] + [x];
      calc {
        Filter(rows + [x], keep);
        head + Filter(rows[1..] + [x], keep);
        { FilterAppend(rows[1..], x, keep); }
        head + (Filter(rows[1..], keep) + tail);
        (head + Filter(rows[1..], keep)) + tail;
      }
    }
  }

  /** Filtering by a predicate no row satisfies leaves nothing; filtering
      by one every row satisfies leaves the table as it was. */
  lemma {:induction false} FilterNone<R(!new)>(rows: seq<R>, keep: R -> bool)
    requires NoneMatch(rows, keep)
    ensures Filter(rows, keep) == []
    decreases |rows|
  {
    if |rows| > 0 {
      FilterNone(rows[1..], keep);
    }
  }

  lemma {:induction false} FilterAll<R(!new)>(rows: seq<R>, keep: R -> bool)
    requires forall i :: 0 <= i < |rows| ==> keep(rows[i])
    ensures Filter(rows, keep) == rows
    decreases |rows|
  {
    if |rows| > 0 {
      FilterAll(rows[1..], keep);
      assert rows == [rows[0]] + rows[1..];
    }
  }

  /** Filtering twice, the second time by a predicate that implies the
      first, is the same as filtering once by the second. */
  lemma {:induction false} FilterNarrow<R(!new)>(rows: seq<R>, wide: R -> bool, narrow: R -> bool)
    requires forall x :: narrow(x) ==> wide(x)
    ensures Filter(Filter(rows, wide), narrow) == Filter(rows, narrow)
    decreases |rows|
  {
    if |rows| > 0 {
      FilterNarrow(rows[1..], wide, narrow);
      var head := if wide(rows[0]) then [rows[0]] else [];
      FilterConcat(head, Filter(rows[1..], wide), narrow);
      if wide(rows[0]) {
        assert head[1..] == [];
      }
    }
  }

  lemma {:induction false} FilterConcat<R(!new)>(a: seq<R>, b: seq<R>, keep: R -> bool)
    ensures Filter(a + b, keep) == Filter(a, keep) + Filter(b, keep)
    decreases |a|
  {
    if |a| == 0 {
      assert a + b == b;
    } else {
      assert (a + b)[1..] == a[1..] + b;
      FilterConcat(a[1..], b, keep);
    }
  }

  /** Filtering is idempotent. */
  lemma FilterTwice<R(!new)>(rows: seq<R>, keep: R -> bool)
    ensures Filter(Filter(rows, keep), keep) == Filter(rows, keep)
  {
    FilterNarrow(rows, keep, keep);
  }

  /** `.single()` over the rows a query produced. */
  function Single<R(!new)>(rows: seq<R>): (r: Result<R>)
    ensures r.Ok? <==> |rows| == 1
    ensures r.Ok? ==> r.value == rows[0]
    ensures r.Err? ==> r.error == NoSingleRow(|rows|)
  {
    if |rows| == 1 then Ok(rows[0]) else Err(NoSingleRow(|rows|))
  }

  /** `select` with equality filters and no `.single()`. */
  function SelectAll<R(!new)>(rows: seq<R>, hit: R -> bool, link: Link): (r: Result<seq<R>>)
    ensures link == Down <==> r.Err?
    ensures r.Err? ==> r.error == Unavailable
    ensures r.Ok? ==> r.value == Filter(rows, hit)
  {
    if link == Down then Err(Unavailable) else Ok(Filter(rows, hit))
  }

  /** `select` with equality filters followed by `.single()`. */
  function SelectSingle<R(!new)>(rows: seq<R>, hit: R -> bool, link: Link): (r: Result<R>)
    ensures link == Down ==> r == Err(Unavailable)
    ensures link == Up ==> r == Single(Filter(rows, hit))
  {
    if link == Down then Err(Unavailable) else Single(Filter(rows, hit))
  }

  /** `insert([row]).select().single()`: the store appends the completed row
      and answers with it. */
  function InsertOne<R(!new)>(rows: seq<R>, row: R, link: Link): (out: Reply<R, R>)
    ensures link == Down ==> out == Reply(rows, Err(Unavailable))
    ensures link == Up ==> out == Reply(rows + [row], Ok(row))
  {
    if link == Down then Reply(rows, Err(Unavailable)) else Reply(rows + [row], Ok(row))
  }

  /** Every row satisfying `hit` rewritten by `patch`, all others kept. */
  function Rewrite<R(!new)>(rows: seq<R>, hit: R -> bool, patch: R -> R): (r: seq<R>)
    ensures |r| == |rows|
    ensures forall i :: 0 <= i < |rows| ==> r[i] == if hit(rows[i]) then patch(rows[i]) else rows[i]
  {
    seq(|rows|, i requires 0 <= i < |rows| => if hit(rows[i]) then patch(rows[i]) else rows[i])
  }

  /** `update(patch).eq(...).select().single()`. The statement runs in one
      transaction; when it would touch other than exactly one row the store
      answers PGRST116 and rolls the statement back. */
  function UpdateOne<R(!new)>(rows: seq<R>, hit: R -> bool, patch: R -> R, link: Link): (out: Reply<R, R>)
    ensures link == Down ==> out == Reply(rows, Err(Unavailable))
    ensures link == Up && |Filter(rows, hit)| != 1 ==>
      out == Reply(rows, Err(NoSingleRow(|Filter(rows, hit)|)))
    ensures link == Up && |Filter(rows, hit)| == 1 ==>
      out == Reply(Rewrite(rows, hit, patch), Ok(patch(Filter(rows, hit)[0])))
  {
    if link == Down then Reply(rows, Err(Unavailable))
    else
      var touched := Filter(rows, hit);
      if |touched| != 1 then Reply(rows, Err(NoSingleRow(|touched|)))
      else Reply(Rewrite(rows, hit, patch), Ok(patch(touched[0])))
  }

  /** The complement of a row predicate. */
  function Not<R>(hit: R -> bool): R -> bool {
    (x: R) => !hit(x)
  }

  /** `delete().eq(...)`: every matching row goes; matching none is success. */
  function DeleteAll<R(!new)>(rows: seq<R>, hit: R -> bool, link: Link): (out: Reply<R, ()>)
    ensures link == Down ==> out == Reply(rows, Err(Unavailable))
    ensures link == Up ==> out == Reply(Filter(rows, Not(hit)), Ok(()))
  {
    if link == Down then Reply(rows, Err(Unavailable)) else Reply(Filter(rows, Not(hit)), Ok(()))
  }

  /** Ids the store assigns: larger than every id already in the table. */
  function FreshId<R(!new)>(rows: seq<R>, id: R -> nat): (n: nat)
    ensures forall i :: 0 <= i < |rows| ==> id(rows[i]) < n
    decreases |rows|
  {
    if |rows| == 0 then 0
    else
      var rest := FreshId(rows[1..], id);
      assert forall i :: 1 <= i < |rows| ==> rows[i] == rows[1..][i - 1];
      if id(rows[0]) < rest then rest else id(rows[0]) + 1
  }

  /** Filtering keeps exactly one row when exactly one position satisfies
      the predicate. */
  lemma {:induction false} FilterOnlyAt<R(!new)>(rows: seq<R>, hit: R -> bool, i: nat)
    requires i < |rows| && hit(rows[i])
    requires forall j :: 0 <= j < |rows| && j != i ==> !hit(rows[j])
    ensures Filter(rows, hit) == [rows[i]]
    decreases |rows|
  {
    var rest := rows[1..];
    if i == 0 {
      assert NoneMatch(rest, hit) by {
        forall j | 0 <= j < |rest| ensures !hit(rest[j]) {
          assert rest[j] == rows[j + 1];
        }
      }
      FilterNone(rest, hit);
    } else {
      assert !hit(rows[0]);
      assert forall j :: 0 <= j < |rest| && j != i - 1 ==> !hit(rest[j]) by {
        forall j | 0 <= j < |rest| && j != i - 1 ensures !hit(rest[j]) {
          assert rest[j] == rows[j + 1];
        }
      }
      FilterOnlyAt(rest, hit, i - 1);
    }
  }

  /** At most one row satisfies `hit`: the uniqueness an upsert keeps for
      each key. */
  predicate AtMostOne<R(!new)>(rows: seq<R>, hit: R -> bool) {
    |Filter(rows, hit)| <= 1
  }

  /** At most one row per key, for every key: `keyed(k)` is the row
      predicate of key `k`. */
  ghost predicate OneRowPerKey<R(!new), K(!new)>(rows: seq<R>, keyed: K -> R -> bool) {
    forall k :: AtMostOne(rows, keyed(k))
  }

  /** No two rows share an id. */
  predicate UniqueIds<R(!new)>(rows: seq<R>, id: R -> nat) {
    forall i, j :: 0 <= i < j < |rows| ==> id(rows[i]) != id(rows[j])
  }

  /** Rows in non-increasing order of `key`, as `.order(col, { ascending: false })`. */
  predicate SortedDesc<R(!new)>(rows: seq<R>, key: R -> int) {
    forall i, j :: 0 <= i < j < |rows| ==> key(rows[i]) >= key(rows[j])
  }

  /** `x` placed before the first row whose key it is at least. */
  function InsertDesc<R(!new)>(x: R, rows: seq<R>, key: R -> int): (r: seq<R>)
    requires SortedDesc(rows, key)
    ensures SortedDesc(r, key)
    ensures |r| == |rows| + 1
    ensures r[0] == x || (|rows| > 0 && r[0] == rows[0])
    ensures multiset(r) == multiset(rows) + multiset{x}
    decreases |rows|
  {
    if |rows| == 0 || key(x) >= key(rows[0]) then [x] + rows
    else
      var rest := InsertDesc(x, rows[1..], key);
      assert rows == [rows[0]] + rows[1..];
      assert key(rows[0]) >= key(rest[0]);
      [rows[0]] + rest
  }

  /** The rows ordered by `key`, largest first: the same rows, reordered. */
  function OrderDesc<R(!new)>(rows: seq<R>, key: R -> int): (r: seq<R>)
    ensures SortedDesc(r, key)
    ensures multiset(r) == multiset(rows)
    decreases |rows|
  {
    if |rows| == 0 then []
    else
      assert rows == [rows[0]] + rows[1..];
      InsertDesc(rows[0], OrderDesc(rows[1..], key), key)
  }

  /** Rewriting rows a filter neither keeps before nor after the rewrite
      does not change what the filter keeps. */
  lemma {:induction false} FilterRewrite<R(!new)>(rows: seq<R>, hit: R -> bool, patch: R -> R, keep: R -> bool)
    requires forall x :: hit(x) ==> !keep(x) && !keep(patch(x))
    ensures Filter(Rewrite(rows, hit, patch), keep) == Filter(rows, keep)
    decreases |rows|
  {
    if |rows| > 0 {
      var r := Rewrite(rows, hit, patch);
      assert r[1..] == Rewrite(rows[1..], hit, patch);
      FilterRewrite(rows[1..], hit, patch, keep);
    }
  }

  /** Filtering keeps the ids of the kept rows distinct. */
  lemma {:induction false} FilterKeepsUniqueIds<R(!new)>(rows: seq<R>, keep: R -> bool, id: R -> nat)
    requires UniqueIds(rows, id)
    ensures UniqueIds(Filter(rows, keep), id)
    decreases |rows|
  {
    if |rows| > 0 {
      var rest := rows[1..];
      assert UniqueIds(rest, id) by {
        forall i, j | 0 <= i < j < |rest| ensures id(rest[i]) != id(rest[j]) {
          assert rest[i] == rows[i + 1] && rest[j] == rows[j + 1];
        }
      }
      FilterKeepsUniqueIds(rest, keep, id);
      var tail := Filter(rest, keep);
      FilterContents(rest, keep);
      if keep(rows[0]) {
        forall y | y in tail ensures id(y) != id(rows[0]) {
          var j :| 0 <= j < |rest| && rest[j] == y;
          assert rows[j + 1] == y;
        }
        ConsKeepsUniqueIds(rows[0], tail, id);
        assert Filter(rows, keep) == [rows[0]] + tail;
      } else {
        assert Filter(rows, keep) == tail;
      }
    }
  }

  lemma ConsKeepsUniqueIds<R(!new)>(x: R, rows: seq<R>, id: R -> nat)
    requires UniqueIds(rows, id)
    requires forall y :: y in rows ==> id(y) != id(x)
    ensures UniqueIds([x] + rows, id)
  {
  }

  /** With distinct ids, rows at different positions differ. */
  lemma DistinctRows<R(!new)>(rows: seq<R>, id: R -> nat, i: nat, j: nat)
    requires UniqueIds(rows, id) && i < |rows| && j < |rows| && i != j
    ensures rows[i] != rows[j]
  {
  }

  /** Appending a row with a fresh id keeps ids distinct. */
  lemma AppendFreshKeepsUniqueIds<R(!new)>(rows: seq<R>, x: R, id: R -> nat)
    requires UniqueIds(rows, id)
    requires forall i :: 0 <= i < |rows| ==> id(rows[i]) < id(x)
    ensures UniqueIds(rows + [x], id)
  {
  }

  /** A rewrite that keeps ids keeps them distinct. */
  lemma RewriteKeepsUniqueIds<R(!new)>(rows: seq<R>, hit: R -> bool, patch: R -> R, id: R -> nat)
    requires UniqueIds(rows, id)
    requires forall x :: id(patch(x)) == id(x)
    ensures UniqueIds(Rewrite(rows, hit, patch), id)
  {
  }
}
