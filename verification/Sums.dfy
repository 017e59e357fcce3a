/** Sums over rows and over the values of a map. */
module Sums {

  /** The sum of `f` over the rows that satisfy `p`: SQL's `SUM(f) ... WHERE p`. */
  function Sum<T>(rows: seq<T>, p: T -> bool, f: T -> int): int {
    if rows == [] then 0
    else Sum(rows[..|rows| - 1], p, f) + if p(rows[|rows| - 1]) then f(rows[|rows| - 1]) else 0
  }

  /** SQL's `COUNT(*) ... WHERE p`. */
  function Count<T>(rows: seq<T>, p: T -> bool): nat {
    if rows == [] then 0
    else Count(rows[..|rows| - 1], p) + if p(rows[|rows| - 1]) then 1 else 0
  }

  lemma SumAppend<T>(rows: seq<T>, row: T, p: T -> bool, f: T -> int)
    ensures Sum(rows + [row], p, f) == Sum(rows, p, f) + if p(row) then f(row) else 0
  {
    assert (rows + [row])[..|rows|] == rows;
  }

  lemma CountAppend<T>(rows: seq<T>, row: T, p: T -> bool)
    ensures Count(rows + [row], p) == Count(rows, p) + if p(row) then 1 else 0
  {
    assert (rows + [row])[..|rows|] == rows;
  }

  /** A sum splits along any partition of its rows. */
  lemma {:induction false} SumSplit<T>(rows: seq<T>, all: T -> bool, left: T -> bool, right: T -> bool, f: T -> int)
    requires forall x | x in rows :: all(x) <==> left(x) || right(x)
    requires forall x | x in rows :: !(left(x) && right(x))
    ensures Sum(rows, all, f) == Sum(rows, left, f) + Sum(rows, right, f)
  {
    if rows != [] {
      assert rows[|rows| - 1] in rows;
      SumSplit(rows[..|rows| - 1], all, left, right, f);
    }
  }

  lemma {:induction false} CountMonotone<T>(rows: seq<T>, p: T -> bool, q: T -> bool)
    requires forall x | x in rows && p(x) :: q(x)
    ensures Count(rows, p) <= Count(rows, q)
  {
    if rows != [] {
      CountMonotone(rows[..|rows| - 1], p, q);
    }
  }

  lemma {:induction false} CountUpdate<T>(rows: seq<T>, i: nat, row: T, p: T -> bool)
    requires i < |rows|
    ensures Count(rows[i := row], p) ==
            Count(rows, p) + (if p(row) then 1 else 0) - (if p(rows[i]) then 1 else 0)
  {
    var last := |rows| - 1;
    if i < last {
      assert rows[i := row][..last] == rows[..last][i := row];
      CountUpdate(rows[..last], i, row, p);
    } else {
      assert rows[i := row][..last] == rows[..last];
    }
  }

  /** The positions of the rows that satisfy `p`. */
  function Where<T>(rows: seq<T>, p: T -> bool): set<int> {
    set j | 0 <= j < |rows| && p(rows[j])
  }

  lemma {:induction false} CountIsCardinality<T>(rows: seq<T>, p: T -> bool)
    ensures Count(rows, p) == |Where(rows, p)|
  {
    if rows == [] {
      assert Where(rows, p) == {};
    } else {
      var last := |rows| - 1;
      CountIsCardinality(rows[..last], p);
      WhereGrows(rows, p);
    }
  }

  lemma WhereGrows<T>(rows: seq<T>, p: T -> bool)
    requires rows != []
    ensures var last := |rows| - 1;
            |Where(rows, p)| == |Where(rows[..last], p)| + if p(rows[last]) then 1 else 0
  {
    var last := |rows| - 1;
    var before := Where(rows[..last], p);
    assert forall j | 0 <= j < last :: rows[..last][j] == rows[j];
    assert last !in before;
    assert Where(rows, p) == before + if p(rows[last]) then {last} else {};
  }

  ghost function SumMap<K>(m: map<K, int>): int {
    if m == map[] then 0 else var k :| k in m; m[k] + SumMap(m - {k})
  }

  lemma {:induction false} SumMapPick<K>(m: map<K, int>, k: K)
    requires k in m
    ensures SumMap(m) == m[k] + SumMap(m - {k})
    decreases |m|
  {
    var j :| j in m && SumMap(m) == m[j] + SumMap(m - {j});
    if j != k {
      assert k in m - {j} && j in m - {k};
      SumMapPick(m - {j}, k);
      SumMapPick(m - {k}, j);
      assert m - {j} - {k} == m - {k} - {j};
    }
  }

  /** `defaultdict(int)`: `m[k] += v`. */
  function Bump<K>(m: map<K, int>, k: K, v: int): map<K, int> {
    m[k := (if k in m then m[k] else 0) + v]
  }

  lemma SumMapBump<K>(m: map<K, int>, k: K, v: int)
    ensures SumMap(Bump(m, k, v)) == SumMap(m) + v
  {
    var b := Bump(m, k, v);
    SumMapPick(b, k);
    assert b - {k} == m - {k};
    if k in m {
      SumMapPick(m, k);
    } else {
      assert m - {k} == m;
    }
  }

  /** SQL's `SUM(f) ... WHERE p GROUP BY key`, and a loop that bumps a `defaultdict`. */
  function GroupSum<T, K>(rows: seq<T>, p: T -> bool, key: T -> K, f: T -> int): map<K, int> {
    if rows == [] then map[]
    else
      var m := GroupSum(rows[..|rows| - 1], p, key, f);
      var row := rows[|rows| - 1];
      if p(row) then Bump(m, key(row), f(row)) else m
  }

  lemma GroupSumAppend<T, K>(rows: seq<T>, row: T, p: T -> bool, key: T -> K, f: T -> int)
    ensures GroupSum(rows + [row], p, key, f) ==
            if p(row) then Bump(GroupSum(rows, p, key, f), key(row), f(row)) else GroupSum(rows, p, key, f)
  {
    assert (rows + [row])[..|rows|] == rows;
  }

  /** Grouping loses and invents nothing. */
  lemma {:induction false} GroupSumConserves<T, K>(rows: seq<T>, p: T -> bool, key: T -> K, f: T -> int)
    ensures SumMap(GroupSum(rows, p, key, f)) == Sum(rows, p, f)
  {
    if rows != [] {
      var init, row := rows[..|rows| - 1], rows[|rows| - 1];
      GroupSumConserves(init, p, key, f);
      SumMapBump(GroupSum(init, p, key, f), key(row), f(row));
    }
  }

  /** A group's value is the sum of its own rows, and a key is present when some row has it. */
  lemma {:induction false} GroupSumAt<T, K>(
      rows: seq<T>, p: T -> bool, key: T -> K, f: T -> int, k: K, own: T -> bool)
    requires forall x | x in rows :: own(x) <==> p(x) && key(x) == k
    ensures k in GroupSum(rows, p, key, f) <==> exists x :: x in rows && own(x)
    ensures (if k in GroupSum(rows, p, key, f) then GroupSum(rows, p, key, f)[k] else 0) == Sum(rows, own, f)
  {
    if rows != [] {
      var init, row := rows[..|rows| - 1], rows[|rows| - 1];
      assert rows == init + [row];
      GroupSumAt(init, p, key, f, k, own);
    }
  }
}
