/**
 * The meaning of the few relational-query builders the storage layer uses
 * (`eq`, `gte`, `lte`, `and`, `where`, `orderBy(desc(..))`, `limit`, `update .. set`,
 * `delete .. where`, `.returning()`), stated over a table held as a sequence of rows.
 */
module Sql {
  import opened Wrappers
  import opened Schema

  /** A column value. `Time` is a timestamp (a `Date`), as an integer instant. */
  datatype Value = Null | Bool(b: bool) | Int(i: int) | Text(s: string) | Time(t: int)

  /** A row: column name to value. A column that is absent reads as NULL. */
  type Row = map<Column, Value>

  function Get(r: Row, col: Column): Value
  {
    if col in r then r[col] else Null
  }

  // ---------------------------------------------------------------------------
  // Conditions: `eq`, `gte`, `lte`, and `and(...conditions)`
  // ---------------------------------------------------------------------------

  datatype Cond = Eq(col: Column, v: Value) | Gte(col: Column, v: Value) | Lte(col: Column, v: Value)

  /** Only two integers or two timestamps are ordered against each other. */
  predicate Comparable(x: Value, y: Value)
  {
    (x.Int? && y.Int?) || (x.Time? && y.Time?)
  }

  function Num(x: Value): int
  {
    match x
    case Int(i) => i
    case Time(t) => t
    case _ => 0
  }

  /** SQL truth of one comparison; a comparison with NULL is never true. */
  predicate Holds(c: Cond, r: Row)
    ensures Holds(c, r) ==> Get(r, c.col) != Null
    ensures c.v == Null ==> !Holds(c, r)
  {
    match c
    case Eq(col, v) => v != Null && Get(r, col) == v
    case Gte(col, v) => Comparable(Get(r, col), v) && Num(Get(r, col)) >= Num(v)
    case Lte(col, v) => Comparable(Get(r, col), v) && Num(Get(r, col)) <= Num(v)
  }

  /** `and(...cs)`: every condition holds (no condition at all filters nothing). */
  predicate Matches(cs: seq<Cond>, r: Row)
    ensures Matches(cs, r) ==> forall k :: 0 <= k < |cs| ==> Get(r, cs[k].col) != Null
    ensures cs == [] ==> Matches(cs, r)
  {
    forall k :: 0 <= k < |cs| ==> Holds(cs[k], r)
  }

  lemma MatchesOne(c: Cond)
    ensures forall r :: Matches([c], r) <==> Holds(c, r)
  {
    assert [c][0] == c;
  }

  lemma MatchesAppend(a: seq<Cond>, b: seq<Cond>)
    ensures forall r :: Matches(a + b, r) <==> Matches(a, r) && Matches(b, r)
  {
    forall r
      ensures Matches(a + b, r) <==> Matches(a, r) && Matches(b, r)
    {
      if Matches(a, r) && Matches(b, r) {
        forall k | 0 <= k < |a + b|
          ensures Holds((a + b)[k], r)
        {
          if k >= |a| {
            assert (a + b)[k] == b[k - |a|];
          }
        }
      }
      if Matches(a + b, r) {
        forall k | 0 <= k < |a|
          ensures Holds(a[k], r)
        {
          assert (a + b)[k] == a[k];
        }
        forall k | 0 <= k < |b|
          ensures Holds(b[k], r)
        {
          assert (a + b)[|a| + k] == b[k];
        }
      }
    }
  }

  // ---------------------------------------------------------------------------
  // SELECT .. WHERE and DELETE .. WHERE
  // ---------------------------------------------------------------------------

  /**
   * The rows for which the condition evaluates to `keep`, each as often as the table holds it:
   * with `keep` the rows a `where` selects, without it the rows a `delete .. where` leaves.
   */
  function Filter(rows: seq<Row>, cs: seq<Cond>, keep: bool): (out: seq<Row>)
    ensures forall r {:trigger multiset(out)[r]} ::
      multiset(out)[r] == if Matches(cs, r) == keep then multiset(rows)[r] else 0
    ensures forall r :: r in out <==> r in rows && Matches(cs, r) == keep
    ensures |out| <= |rows|
  {
    if rows == [] then []
    else
      assert rows == [rows[0]] + rows[1..];
      (if Matches(cs, rows[0]) == keep then [rows[0]] else []) + Filter(rows[1..], cs, keep)
  }

  /** `select().from(t).where(and(...cs))` */
  function Where(rows: seq<Row>, cs: seq<Cond>): (out: seq<Row>)
    ensures forall r :: r in out <==> r in rows && Matches(cs, r)
    ensures |out| <= |rows|
  {
    Filter(rows, cs, true)
  }

  /** The table after `delete(t).where(and(...cs))` */
  function Delete(rows: seq<Row>, cs: seq<Cond>): (out: seq<Row>)
    ensures forall r :: r in out <==> r in rows && !Matches(cs, r)
  {
    Filter(rows, cs, false)
  }

  /** A `delete` and a `select` under the same condition split the table between them. */
  lemma DeleteAndWherePartition(rows: seq<Row>, cs: seq<Cond>)
    ensures multiset(Delete(rows, cs)) + multiset(Where(rows, cs)) == multiset(rows)
  {
    var kept, selected := Delete(rows, cs), Where(rows, cs);
    assert forall r :: (multiset(kept) + multiset(selected))[r] == multiset(rows)[r];
  }

  /** A `select` returns no row more often than the table holds it. */
  lemma WhereIsSubMultiset(rows: seq<Row>, cs: seq<Cond>)
    ensures multiset(Where(rows, cs)) <= multiset(rows)
  {
    var out := Where(rows, cs);
    assert forall r :: multiset(out)[r] <= multiset(rows)[r];
  }

  /** Index of the first row the condition selects, or `|rows|` when there is none. */
  function FirstMatch(rows: seq<Row>, cs: seq<Cond>): (k: nat)
    ensures k <= |rows|
    ensures forall j :: 0 <= j < k ==> !Matches(cs, rows[j])
    ensures k < |rows| ==> Matches(cs, rows[k])
  {
    if rows == [] then 0
    else if Matches(cs, rows[0]) then 0
    else 1 + FirstMatch(rows[1..], cs)
  }

  /** `.where(and(...cs)).limit(1)` and then `result[0]`: some matching row exactly when one exists. */
  function FirstWhere(rows: seq<Row>, cs: seq<Cond>): (o: Option<Row>)
    ensures o.Some? <==> exists r :: r in rows && Matches(cs, r)
    ensures o.Some? ==> o.value in rows && Matches(cs, o.value)
  {
    var hit := Where(rows, cs);
    assert hit != [] ==> hit[0] in hit;
    FirstOf(hit)
  }

  /** A `where` keeps table order: it is empty exactly when no row matches, and starts at the first match. */
  lemma {:induction false} WhereStartsAtFirstMatch(rows: seq<Row>, cs: seq<Cond>)
    ensures Where(rows, cs) == [] <==> FirstMatch(rows, cs) == |rows|
    ensures Where(rows, cs) != [] ==> Where(rows, cs)[0] == rows[FirstMatch(rows, cs)]
  {
    if rows != [] && !Matches(cs, rows[0]) {
      WhereStartsAtFirstMatch(rows[1..], cs);
    }
  }

  /** No two rows of the table share a value of `col`. */
  predicate Distinct(rows: seq<Row>, col: Column)
  {
    forall i, j :: 0 <= i < j < |rows| ==> Get(rows[i], col) != Get(rows[j], col)
  }

  lemma {:induction false} FilterKeepsDistinct(rows: seq<Row>, cs: seq<Cond>, keep: bool, col: Column)
    requires Distinct(rows, col)
    ensures Distinct(Filter(rows, cs, keep), col)
  {
    if rows != [] {
      FilterKeepsDistinct(rows[1..], cs, keep, col);
      var rest := Filter(rows[1..], cs, keep);
      if Matches(cs, rows[0]) == keep {
        var out := [rows[0]] + rest;
        forall i, j | 0 <= i < j < |out|
          ensures Get(out[i], col) != Get(out[j], col)
        {
          if i == 0 {
            assert out[j] in rows[1..];
            var m :| 0 <= m < |rows[1..]| && rows[1..][m] == out[j];
            assert rows[1 + m] == out[j];
          } else {
            assert out[i] == rest[i - 1] && out[j] == rest[j - 1];
          }
        }
      }
    }
  }

  // ---------------------------------------------------------------------------
  // UPDATE .. SET .. WHERE .. RETURNING
  // ---------------------------------------------------------------------------

  /** The table after `update(t).set(patch).where(and(...cs))`. */
  function Update(rows: seq<Row>, cs: seq<Cond>, patch: Row): (out: seq<Row>)
    ensures |out| == |rows|
    ensures forall i :: 0 <= i < |rows| && !Matches(cs, rows[i]) ==> out[i] == rows[i]
    ensures forall i, c {:trigger Get(out[i], c)} :: 0 <= i < |rows| ==>
      Get(out[i], c) == if Matches(cs, rows[i]) && c in patch then patch[c] else Get(rows[i], c)
  {
    seq(|rows|, i requires 0 <= i < |rows| => if Matches(cs, rows[i]) then rows[i] + patch else rows[i])
  }

  /** The rows `.returning()` yields for that update: each matched row with the patch applied. */
  function Returning(rows: seq<Row>, cs: seq<Cond>, patch: Row): (out: seq<Row>)
    ensures |out| == |Where(rows, cs)|
    ensures forall i :: 0 <= i < |out| ==> out[i] == Where(rows, cs)[i] + patch
    ensures forall r :: r in out ==> exists s :: s in rows && Matches(cs, s) && r == s + patch
  {
    var hit := Where(rows, cs);
    var out := seq(|hit|, i requires 0 <= i < |hit| => hit[i] + patch);
    assert forall r :: r in out ==> exists s :: s in rows && Matches(cs, s) && r == s + patch by {
      forall r | r in out
        ensures exists s :: s in rows && Matches(cs, s) && r == s + patch
      {
        var i :| 0 <= i < |out| && out[i] == r;
        assert hit[i] in hit;
      }
    }
    out
  }

  /** An update that matches no row changes nothing and returns nothing. */
  lemma {:induction false} UpdateWithoutMatch(rows: seq<Row>, cs: seq<Cond>, patch: Row)
    requires forall r :: r in rows ==> !Matches(cs, r)
    ensures Update(rows, cs, patch) == rows
    ensures Returning(rows, cs, patch) == []
  {
    var out := Update(rows, cs, patch);
    forall i | 0 <= i < |rows|
      ensures out[i] == rows[i]
    {
      assert rows[i] in rows;
    }
    if rows != [] {
      assert rows[0] in rows;
      UpdateWithoutMatch(rows[1..], cs, patch);
    }
  }

  /**
   * What an `update .. returning()` yields first: nothing (and the table is unchanged) when
   * no row matches, otherwise the first matching row with the patch applied.
   */
  lemma UpdateReturnsFirstMatch(rows: seq<Row>, cs: seq<Cond>, patch: Row)
    ensures Returning(rows, cs, patch) == [] <==> forall r :: r in rows ==> !Matches(cs, r)
    ensures Returning(rows, cs, patch) == [] ==> Update(rows, cs, patch) == rows
    ensures Returning(rows, cs, patch) != [] ==>
      FirstMatch(rows, cs) < |rows| && Returning(rows, cs, patch)[0] == rows[FirstMatch(rows, cs)] + patch
  {
    WhereStartsAtFirstMatch(rows, cs);
    if forall r :: r in rows ==> !Matches(cs, r) {
      UpdateWithoutMatch(rows, cs, patch);
    }
  }

  /** `FirstMatch` is the index before which nothing matches and at which a row matches. */
  lemma {:induction false} FirstMatchIs(rows: seq<Row>, cs: seq<Cond>, k: nat)
    requires k <= |rows|
    requires forall j :: 0 <= j < k ==> !Matches(cs, rows[j])
    requires k < |rows| ==> Matches(cs, rows[k])
    ensures FirstMatch(rows, cs) == k
  {
    if rows != [] && k > 0 {
      assert !Matches(cs, rows[0]);
      forall j | 0 <= j < k - 1
        ensures !Matches(cs, rows[1..][j])
      {
        assert rows[1..][j] == rows[j + 1];
      }
      FirstMatchIs(rows[1..], cs, k - 1);
    }
  }

  /**
   * Reading back after an update: when the patch leaves every selected row selected, the first
   * row the same condition selects afterwards is the first row `.returning()` gave.
   */
  lemma ReadAfterUpdate(rows: seq<Row>, cs: seq<Cond>, patch: Row)
    requires forall r :: r in rows && Matches(cs, r) ==> Matches(cs, r + patch)
    ensures FirstWhere(Update(rows, cs, patch), cs) == FirstOf(Returning(rows, cs, patch))
  {
    var out := Update(rows, cs, patch);
    var k := FirstMatch(rows, cs);
    if k < |rows| {
      assert rows[k] in rows;
      assert out[k] == rows[k] + patch;
    }
    FirstMatchIs(out, cs, k);
    WhereStartsAtFirstMatch(rows, cs);
    WhereStartsAtFirstMatch(out, cs);
  }

  /** Reading back after an insert: a row appended where none matched is the first match. */
  lemma ReadAfterInsert(rows: seq<Row>, cs: seq<Cond>, x: Row)
    requires forall r :: r in rows ==> !Matches(cs, r)
    requires Matches(cs, x)
    ensures FirstWhere(rows + [x], cs) == Some(x)
  {
    var out := rows + [x];
    forall j | 0 <= j < |rows|
      ensures !Matches(cs, out[j])
    {
      assert out[j] == rows[j] && rows[j] in rows;
    }
    FirstMatchIs(out, cs, |rows|);
    WhereStartsAtFirstMatch(out, cs);
  }

  /** An update keeps column `col` of every row when the patch writes to it only the value it selects on. */
  lemma UpdateKeepsSelectedColumn(rows: seq<Row>, col: Column, v: Value, patch: Row)
    requires col in patch && patch[col] == v
    ensures forall i :: 0 <= i < |rows| ==> Get(Update(rows, [Eq(col, v)], patch)[i], col) == Get(rows[i], col)
    ensures Distinct(rows, col) ==> Distinct(Update(rows, [Eq(col, v)], patch), col)
  {
    MatchesOne(Eq(col, v));
    var out := Update(rows, [Eq(col, v)], patch);
    forall i | 0 <= i < |rows|
      ensures Get(out[i], col) == Get(rows[i], col)
    {
    }
  }

  // ---------------------------------------------------------------------------
  // ORDER BY .. DESC and LIMIT
  // ---------------------------------------------------------------------------

  /**
   * Sort key of a value; NULL is `None`. Only integer and timestamp columns are ordered by here;
   * a boolean ranks as 1 for true and 0 for false, and every text as 0.
   */
  function Rank(v: Value): (k: Option<int>)
    ensures k.None? <==> v.Null?
    ensures v.Int? ==> k == Some(v.i)
    ensures v.Time? ==> k == Some(v.t)
  {
    match v
    case Null => None
    case Bool(b) => Some(if b then 1 else 0)
    case Int(i) => Some(i)
    case Text(_) => Some(0)
    case Time(t) => Some(t)
  }

  /** `x` sorts strictly before `y` in descending order, where NULLs come first. */
  predicate Higher(x: Option<int>, y: Option<int>)
    ensures Higher(x, y) ==> x != y
    ensures x.None? && y.Some? ==> Higher(x, y)
  {
    (x.None? && y.Some?) || (x.Some? && y.Some? && x.value > y.value)
  }

  /** `a` may come before `b` under `orderBy(desc(cols[0]), desc(cols[1]), ..)`. */
  predicate Precedes(a: Row, b: Row, cols: seq<Column>)
    ensures a == b ==> Precedes(a, b, cols)
    decreases |cols|
  {
    cols != [] ==>
      var x, y := Rank(Get(a, cols[0])), Rank(Get(b, cols[0]));
      Higher(x, y) || (x == y && Precedes(a, b, cols[1..]))
  }

  /** A row higher in the first sort column comes first, and never the other way round. */
  lemma PrecedesByFirstColumn(a: Row, b: Row, cols: seq<Column>)
    requires cols != [] && Higher(Rank(Get(a, cols[0])), Rank(Get(b, cols[0])))
    ensures Precedes(a, b, cols) && !Precedes(b, a, cols)
  {
    var x, y := Rank(Get(a, cols[0])), Rank(Get(b, cols[0]));
    assert !Higher(y, x) && x != y;
  }

  lemma {:induction false} PrecedesTotal(a: Row, b: Row, cols: seq<Column>)
    ensures Precedes(a, b, cols) || Precedes(b, a, cols)
    decreases |cols|
  {
    if cols != [] {
      PrecedesTotal(a, b, cols[1..]);
    }
  }

  lemma {:induction false} PrecedesTransitive(a: Row, b: Row, c: Row, cols: seq<Column>)
    requires Precedes(a, b, cols) && Precedes(b, c, cols)
    ensures Precedes(a, c, cols)
    decreases |cols|
  {
    if cols != [] {
      var x, y, z := Rank(Get(a, cols[0])), Rank(Get(b, cols[0])), Rank(Get(c, cols[0]));
      if x == y && y == z {
        PrecedesTransitive(a, b, c, cols[1..]);
      }
    }
  }

  predicate SortedDesc(s: seq<Row>, cols: seq<Column>)
  {
    forall i, j :: 0 <= i < j < |s| ==> Precedes(s[i], s[j], cols)
  }

  lemma PrependSorted(x: Row, s: seq<Row>, cols: seq<Column>)
    requires SortedDesc(s, cols)
    requires forall y :: y in s ==> Precedes(x, y, cols)
    ensures SortedDesc([x] + s, cols)
  {
    forall i, j | 0 <= i < j < |[x] + s|
      ensures Precedes(([x] + s)[i], ([x] + s)[j], cols)
    {
      assert ([x] + s)[j] == s[j - 1];
      if i > 0 {
        assert ([x] + s)[i] == s[i - 1];
      }
    }
  }

  /** A row that precedes the head of a descending sequence precedes all of it. */
  lemma PrecedesAll(x: Row, s: seq<Row>, cols: seq<Column>)
    requires SortedDesc(s, cols) && s != [] && Precedes(x, s[0], cols)
    ensures forall y :: y in s ==> Precedes(x, y, cols)
  {
    forall y | y in s ensures Precedes(x, y, cols) {
      var j :| 0 <= j < |s| && s[j] == y;
      if j > 0 {
        PrecedesTransitive(x, s[0], s[j], cols);
      }
    }
  }

  /** The head of a descending sequence precedes every row of an insertion into its tail. */
  lemma HeadPrecedesInsertion(x: Row, s: seq<Row>, rest: seq<Row>, cols: seq<Column>)
    requires SortedDesc(s, cols) && s != [] && Precedes(s[0], x, cols)
    requires multiset(rest) == multiset(s[1..]) + multiset{x}
    ensures forall y :: y in rest ==> Precedes(s[0], y, cols)
  {
    forall y | y in rest ensures Precedes(s[0], y, cols) {
      assert y in multiset(rest);
      if y != x {
        assert y in multiset(s[1..]);
        var j :| 0 <= j < |s[1..]| && s[1..][j] == y;
        assert s[j + 1] == y;
      }
    }
  }

  /** Puts `x` in front of the first row it may precede. */
  function InsertDesc(x: Row, s: seq<Row>, cols: seq<Column>): (out: seq<Row>)
    requires SortedDesc(s, cols)
    ensures multiset(out) == multiset(s) + multiset{x}
    ensures SortedDesc(out, cols)
  {
    if s == [] then [x]
    else if Precedes(x, s[0], cols) then
      PrecedesAll(x, s, cols);
      PrependSorted(x, s, cols);
      [x] + s
    else
      PrecedesTotal(x, s[0], cols);
      var rest := InsertDesc(x, s[1..], cols);
      assert s == [s[0]] + s[1..];
      HeadPrecedesInsertion(x, s, rest, cols);
      PrependSorted(s[0], rest, cols);
      [s[0]] + rest
  }

  /** `orderBy(desc(..))`: a descending permutation of the rows; rows that tie keep table order. */
  function OrderByDesc(rows: seq<Row>, cols: seq<Column>): (out: seq<Row>)
    ensures multiset(out) == multiset(rows)
    ensures SortedDesc(out, cols)
  {
    if rows == [] then []
    else
      assert rows == [rows[0]] + rows[1..];
      InsertDesc(rows[0], OrderByDesc(rows[1..], cols), cols)
  }

  /** `.limit(n)` */
  function Limit(rows: seq<Row>, n: nat): (out: seq<Row>)
    ensures |out| == if |rows| < n then |rows| else n
    ensures out == rows[..|out|]
  {
    if |rows| <= n then rows else rows[..n]
  }

  /** `result[0]`: the first row a query returns, or `undefined`. */
  function FirstOf(rows: seq<Row>): (o: Option<Row>)
    ensures o.Some? <==> |rows| > 0
    ensures o.Some? ==> o.value == rows[0]
  {
    if rows == [] then None else Some(rows[0])
  }

  /**
   * `orderBy(desc(..)).limit(n)`: the `n` highest rows in descending order, or all of them when
   * there are fewer; any row left out sorts no earlier than every row returned.
   */
  function Top(rows: seq<Row>, cols: seq<Column>, n: nat): (out: seq<Row>)
    ensures |out| == if |rows| < n then |rows| else n
    ensures multiset(out) <= multiset(rows)
    ensures |rows| <= n ==> multiset(out) == multiset(rows)
    ensures SortedDesc(out, cols)
    ensures forall x {:trigger multiset(out)[x]} ::
      multiset(out)[x] < multiset(rows)[x] ==> forall y :: y in out ==> Precedes(y, x, cols)
  {
    var sorted := OrderByDesc(rows, cols);
    LimitOfSorted(rows, sorted, cols, n);
    Limit(sorted, n)
  }

  lemma LimitOfSorted(rows: seq<Row>, sorted: seq<Row>, cols: seq<Column>, n: nat)
    requires multiset(sorted) == multiset(rows) && SortedDesc(sorted, cols)
    ensures |Limit(sorted, n)| == if |rows| < n then |rows| else n
    ensures multiset(Limit(sorted, n)) <= multiset(rows)
    ensures |rows| <= n ==> multiset(Limit(sorted, n)) == multiset(rows)
    ensures SortedDesc(Limit(sorted, n), cols)
    ensures forall x {:trigger multiset(Limit(sorted, n))[x]} ::
      multiset(Limit(sorted, n))[x] < multiset(rows)[x] ==> forall y :: y in Limit(sorted, n) ==> Precedes(y, x, cols)
  {
    assert |sorted| == |rows| by {
      assert |multiset(sorted)| == |multiset(rows)|;
    }
    if n < |sorted| {
      assert sorted == sorted[..n] + sorted[n..];
    }
    forall x | multiset(Limit(sorted, n))[x] < multiset(rows)[x]
      ensures forall y :: y in Limit(sorted, n) ==> Precedes(y, x, cols)
    {
      LimitKeepsHighest(sorted, n, cols, x);
    }
  }

  /**
   * A limit over a descending order keeps the highest rows: any row the limit drops
   * (at least one of its copies) sorts no earlier than every row it keeps.
   */
  lemma LimitKeepsHighest(s: seq<Row>, n: nat, cols: seq<Column>, x: Row)
    requires SortedDesc(s, cols)
    requires multiset(Limit(s, n))[x] < multiset(s)[x]
    ensures forall y :: y in Limit(s, n) ==> Precedes(y, x, cols)
  {
    assert n < |s|;
    var k := DroppedIndex(s, n, x);
    forall y | y in Limit(s, n)
      ensures Precedes(y, x, cols)
    {
      var i :| 0 <= i < n && s[..n][i] == y;
      assert s[i] == y;
    }
  }

  /** A row kept fewer times by a limit than the sequence holds it sits at or after the cut. */
  lemma DroppedIndex(s: seq<Row>, n: nat, x: Row) returns (k: nat)
    requires n < |s| && multiset(s[..n])[x] < multiset(s)[x]
    ensures n <= k < |s| && s[k] == x
  {
    var kept, dropped := s[..n], s[n..];
    assert s == kept + dropped;
    assert multiset(s) == multiset(kept) + multiset(dropped);
    assert x in multiset(dropped);
    var j :| 0 <= j < |dropped| && dropped[j] == x;
    k := n + j;
  }
}
