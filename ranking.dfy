/**
 * The order of a statistics sheet: `rows.sort(key=lambda x: (-x[1],
 * x[0].lower()))` in code/article_info_stat_generator.py, that is by
 * descending count, then by ascending lower-cased name, keeping the input
 * order of rows that tie on both.
 */
module Ranking {
  import opened Text

  /** Python's `<` on strings: code point by code point, a proper prefix first. */
  predicate LexLt(a: string, b: string) {
    b != [] && (a == [] || a[0] < b[0] || (a[0] == b[0] && LexLt(a[1..], b[1..])))
  }

  lemma {:induction false} LexLtIrreflexive(a: string)
    ensures !LexLt(a, a)
  {
    if a != [] {
      LexLtIrreflexive(a[1..]);
    }
  }

  lemma {:induction false} LexLtTransitive(a: string, b: string, c: string)
    requires LexLt(a, b) && LexLt(b, c)
    ensures LexLt(a, c)
  {
    if a != [] && a[0] == b[0] && b[0] == c[0] {
      LexLtTransitive(a[1..], b[1..], c[1..]);
    }
  }

  lemma {:induction false} LexLtTotal(a: string, b: string)
    requires a != b
    ensures LexLt(a, b) || LexLt(b, a)
  {
    if a != [] && b != [] && a[0] == b[0] {
      assert a == [a[0]] + a[1..] && b == [b[0]] + b[1..];
      LexLtTotal(a[1..], b[1..]);
    }
  }

  /** A sheet row: a name and its number of occurrences. */
  type Row = (string, nat)

  /** Row `a` sorts strictly before row `b`: a larger count, or the same count and a smaller lower-cased name. */
  predicate Before(a: Row, b: Row) {
    a.1 > b.1 || (a.1 == b.1 && LexLt(Lower(a.0), Lower(b.0)))
  }

  lemma BeforeTransitive(a: Row, b: Row, c: Row)
    requires Before(a, b) && Before(b, c)
    ensures Before(a, c)
  {
    if a.1 == b.1 == c.1 {
      LexLtTransitive(Lower(a.0), Lower(b.0), Lower(c.0));
    }
  }

  /** No row sorts strictly before a row that precedes it. */
  predicate Ranked(rows: seq<Row>) {
    forall i, j :: 0 <= i < j < |rows| ==> !Before(rows[j], rows[i])
  }

  /** Insert `x` after every row it does not sort before (so after its ties). */
  function Insert(x: Row, rows: seq<Row>): seq<Row> {
    if rows == [] then [x]
    else if Before(x, rows[0]) then [x] + rows
    else [rows[0]] + Insert(x, rows[1..])
  }

  /** Inserting adds `x` and keeps every other row. */
  lemma {:induction false} InsertPermutes(x: Row, rows: seq<Row>)
    ensures multiset(Insert(x, rows)) == multiset(rows) + multiset{x}
  {
    if rows != [] && !Before(x, rows[0]) {
      InsertPermutes(x, rows[1..]);
      assert rows == [rows[0]] + rows[1..];
    }
  }

  /** `list.sort` with the sheet's key: a stable insertion sort. */
  function Rank(rows: seq<Row>): seq<Row> {
    if rows == [] then []
    else Insert(rows[|rows| - 1], Rank(rows[..|rows| - 1]))
  }

  lemma {:induction false} InsertRanked(x: Row, rows: seq<Row>)
    requires Ranked(rows)
    ensures Ranked(Insert(x, rows))
  {
    if rows == [] {
    } else if Before(x, rows[0]) {
      var r := [x] + rows;
      forall i, j | 0 <= i < j < |r|
        ensures !Before(r[j], r[i])
      {
        if i == 0 && Before(r[j], x) {
          BeforeTransitive(r[j], x, rows[0]);
          if j == 1 {
            BeforeIrreflexive(rows[0]);
          }
        }
      }
    } else {
      InsertRanked(x, rows[1..]);
      InsertPermutes(x, rows[1..]);
      var tail := Insert(x, rows[1..]);
      var r := [rows[0]] + tail;
      forall i, j | 0 <= i < j < |r|
        ensures !Before(r[j], r[i])
      {
        if i == 0 {
          var e := r[j];
          assert e in multiset(tail);
          assert e == x || e in multiset(rows[1..]);
          if e != x {
            var k :| 1 <= k < |rows| && rows[k] == e;
          }
        }
      }
    }
  }

  lemma BeforeIrreflexive(a: Row)
    ensures !Before(a, a)
  {
    LexLtIrreflexive(Lower(a.0));
  }

  /** The sorted sheet is ranked and holds exactly the rows it was given. */
  lemma {:induction false} RankSorts(rows: seq<Row>)
    ensures Ranked(Rank(rows)) && multiset(Rank(rows)) == multiset(rows)
  {
    if rows != [] {
      var init := rows[..|rows| - 1];
      RankSorts(init);
      InsertRanked(rows[|rows| - 1], Rank(init));
      InsertPermutes(rows[|rows| - 1], Rank(init));
      assert rows == init + [rows[|rows| - 1]];
    }
  }
}
