/** The `#__redirect_links` table and the row-level meaning of the SQL statements the
    plugin sends to it: a DELETE with a WHERE clause, an UPDATE of one URL column
    where that column has a given value, and an INSERT. */
module RedirectTable {

  /** One redirect row, with the columns the plugin writes. `published` and `header`
      are the integers stored in the table (1 for published, an HTTP status code). */
  datatype Row = Row(
    oldUrl: string,
    newUrl: string,
    published: int,
    header: int,
    createdDate: string,
    modifiedDate: string)

  /** The two URL columns an update may name: `old_url` and `new_url`. */
  datatype Column = OldUrl | NewUrl

  function Get(row: Row, col: Column): string
  {
    match col
    case OldUrl => row.oldUrl
    case NewUrl => row.newUrl
  }

  /** `row` with column `col` set to `v`; every other column keeps its value. */
  function Set(row: Row, col: Column, v: string): (r: Row)
    ensures Get(r, col) == v
    ensures col == OldUrl ==> r.newUrl == row.newUrl
    ensures col == NewUrl ==> r.oldUrl == row.oldUrl
    ensures r.published == row.published && r.header == row.header
    ensures r.createdDate == row.createdDate && r.modifiedDate == row.modifiedDate
  {
    match col
    case OldUrl => row.(oldUrl := v)
    case NewUrl => row.(newUrl := v)
  }

  /** `a` and `b` agree on every column other than `col`. */
  predicate SameOutside(a: Row, b: Row, col: Column)
  {
    Set(a, col, Get(b, col)) == b
  }

  /** The WHERE clauses of the two DELETE statements: `old_url = url`, and
      `old_url = new_url` (a row that redirects a URL to itself). */
  datatype Condition = OldUrlIs(url: string) | SelfRedirect

  predicate Satisfies(row: Row, c: Condition)
  {
    match c
    case OldUrlIs(url) => row.oldUrl == url
    case SelfRedirect => row.oldUrl == row.newUrl
  }

  /** The table after deleting the rows that satisfy `c`: no such row is left. */
  function Deleted(t: seq<Row>, c: Condition): (r: seq<Row>)
    ensures |r| <= |t|
    ensures forall i :: 0 <= i < |r| ==> !Satisfies(r[i], c)
  {
    if t == [] then []
    else
      assert t == [t[0]] + t[1..];
      (if Satisfies(t[0], c) then [] else [t[0]]) + Deleted(t[1..], c)
  }

  /** The rows a delete leaves were all there before. */
  lemma {:induction false} DeletedFrom(t: seq<Row>, c: Condition)
    ensures forall i :: 0 <= i < |Deleted(t, c)| ==> Deleted(t, c)[i] in t
  {
    if t != [] {
      DeletedFrom(t[1..], c);
      var head := if Satisfies(t[0], c) then [] else [t[0]];
      var rest := Deleted(t[1..], c);
      forall i | 0 <= i < |head + rest| ensures (head + rest)[i] in t {
        if i >= |head| {
          assert (head + rest)[i] == rest[i - |head|];
          assert rest[i - |head|] in t[1..];
        }
      }
    }
  }

  /** A table without a row that satisfies `c` is left as it is. */
  lemma {:induction false} DeletedNone(t: seq<Row>, c: Condition)
    requires forall i :: 0 <= i < |t| ==> !Satisfies(t[i], c)
    ensures Deleted(t, c) == t
  {
    if t != [] {
      DeletedNone(t[1..], c);
      assert t == [t[0]] + t[1..];
    }
  }

  /** Every row that does not satisfy `c` is left, as often as it was there. */
  lemma {:induction false} DeletedKeeps(t: seq<Row>, c: Condition, row: Row)
    requires !Satisfies(row, c)
    ensures multiset(Deleted(t, c))[row] == multiset(t)[row]
  {
    if t != [] {
      DeletedKeeps(t[1..], c, row);
      var head := if Satisfies(t[0], c) then [] else [t[0]];
      assert t == [t[0]] + t[1..];
      assert multiset(t) == multiset([t[0]]) + multiset(t[1..]);
      assert multiset(head + Deleted(t[1..], c)) == multiset(head) + multiset(Deleted(t[1..], c));
    }
  }

  /** A row after the update: column `col` set to `y` if it equals `x`. */
  function UpdatedRow(row: Row, col: Column, x: string, y: string): Row
  {
    if Get(row, col) == x then Set(row, col, y) else row
  }

  /** The table after setting column `col` to `y` in every row where it equals `x`. */
  function Updated(t: seq<Row>, col: Column, x: string, y: string): (r: seq<Row>)
    ensures |r| == |t|
  {
    if t == [] then [] else [UpdatedRow(t[0], col, x, y)] + Updated(t[1..], col, x, y)
  }

  /** The update treats each row on its own, in place. */
  lemma {:induction false} UpdatedAt(t: seq<Row>, col: Column, x: string, y: string, i: nat)
    requires i < |t|
    ensures Updated(t, col, x, y)[i] == UpdatedRow(t[i], col, x, y)
  {
    if i > 0 {
      UpdatedAt(t[1..], col, x, y, i - 1);
    }
  }

  /** In each row the updated column becomes `y` exactly where it was `x`. */
  lemma UpdatedColumn(t: seq<Row>, col: Column, x: string, y: string)
    ensures forall i :: 0 <= i < |t| ==>
      Get(Updated(t, col, x, y)[i], col) == (if Get(t[i], col) == x then y else Get(t[i], col))
  {
    forall i | 0 <= i < |t|
      ensures Get(Updated(t, col, x, y)[i], col) == (if Get(t[i], col) == x then y else Get(t[i], col))
    {
      UpdatedAt(t, col, x, y, i);
    }
  }

  /** An update changes no column other than the one it sets. */
  lemma UpdatedOthers(t: seq<Row>, col: Column, x: string, y: string)
    ensures forall i :: 0 <= i < |t| ==> SameOutside(Updated(t, col, x, y)[i], t[i], col)
  {
    forall i | 0 <= i < |t| ensures SameOutside(Updated(t, col, x, y)[i], t[i], col) {
      UpdatedAt(t, col, x, y, i);
    }
  }

  /** An update that sets a value to itself, or finds no row to change, leaves the
      table as it is. */
  lemma {:induction false} UpdatedUnchanged(t: seq<Row>, col: Column, x: string, y: string)
    requires x == y || forall i :: 0 <= i < |t| ==> Get(t[i], col) != x
    ensures Updated(t, col, x, y) == t
  {
    if t != [] {
      UpdatedUnchanged(t[1..], col, x, y);
      assert t == [t[0]] + t[1..];
    }
  }

  /** Deleting works row by row: it keeps the order of the rows it keeps. */
  lemma {:induction false} DeletedAppend(a: seq<Row>, b: seq<Row>, c: Condition)
    ensures Deleted(a + b, c) == Deleted(a, c) + Deleted(b, c)
  {
    if a == [] {
      assert a + b == b;
    } else {
      assert (a + b)[1..] == a[1..] + b;
      DeletedAppend(a[1..], b, c);
    }
  }

  /** A row that does not satisfy `c` is still there after the delete. */
  lemma {:induction false} DeletedContains(t: seq<Row>, c: Condition, i: nat)
    requires i < |t| && !Satisfies(t[i], c)
    ensures t[i] in Deleted(t, c)
  {
    if i > 0 {
      DeletedContains(t[1..], c, i - 1);
    }
  }

  /** Of two rows a delete keeps, the earlier one stays ahead of the later one. */
  lemma DeletedKeepsOrder(t: seq<Row>, c: Condition, i: nat, j: nat)
    requires i < j < |t| && !Satisfies(t[i], c) && !Satisfies(t[j], c)
    ensures var r := Deleted(t, c);
      exists p, q :: 0 <= p < q < |r| && r[p] == t[i] && r[q] == t[j]
  {
    var front, back := t[..j], t[j..];
    assert t == front + back;
    DeletedAppend(front, back, c);
    var f, g := Deleted(front, c), Deleted(back, c);
    DeletedContains(front, c, i);
    var p :| 0 <= p < |f| && f[p] == t[i];
    assert g == [t[j]] + Deleted(back[1..], c);
    assert (f + g)[p] == t[i] && (f + g)[|f|] == t[j];
  }

  /** Updating works row by row. */
  lemma {:induction false} UpdatedAppend(a: seq<Row>, b: seq<Row>, col: Column, x: string, y: string)
    ensures Updated(a + b, col, x, y) == Updated(a, col, x, y) + Updated(b, col, x, y)
  {
    if a == [] {
      assert a + b == b;
    } else {
      assert (a + b)[1..] == a[1..] + b;
      UpdatedAppend(a[1..], b, col, x, y);
    }
  }

  /** Deleting from a table one row longer. */
  lemma DeletedSnoc(t: seq<Row>, i: nat, c: Condition)
    requires i < |t|
    ensures Deleted(t[..i + 1], c) == Deleted(t[..i], c) + (if Satisfies(t[i], c) then [] else [t[i]])
  {
    assert t[..i + 1] == t[..i] + [t[i]];
    DeletedAppend(t[..i], [t[i]], c);
    assert [t[i]][1..] == [];
  }

  /** Updating a table one row longer. */
  lemma UpdatedSnoc(t: seq<Row>, i: nat, col: Column, x: string, y: string)
    requires i < |t|
    ensures Updated(t[..i + 1], col, x, y)
         == Updated(t[..i], col, x, y) + [UpdatedRow(t[i], col, x, y)]
  {
    assert t[..i + 1] == t[..i] + [t[i]];
    UpdatedAppend(t[..i], [t[i]], col, x, y);
    assert [t[i]][1..] == [];
  }

  /** The redirect table as the database holds it. */
  class Table {
    var rows: seq<Row>

    constructor (rows: seq<Row>)
      ensures this.rows == rows
    {
      this.rows := rows;
    }

    /** Deletes every row that satisfies `c`. */
    method Delete(c: Condition)
      modifies this
      ensures rows == Deleted(old(rows), c)
    {
      var t := rows;
      var kept := [];
      var i := 0;
      while i < |t|
        invariant i <= |t|
        invariant kept == Deleted(t[..i], c)
      {
        DeletedSnoc(t, i, c);
        if !Satisfies(t[i], c) {
          kept := kept + [t[i]];
        }
        i := i + 1;
      }
      assert t[..i] == t;
      rows := kept;
    }

    /** Sets column `col` to `y` in every row where it equals `x`. */
    method Update(col: Column, x: string, y: string)
      modifies this
      ensures rows == Updated(old(rows), col, x, y)
    {
      var t := rows;
      var done := [];
      var i := 0;
      while i < |t|
        invariant i <= |t|
        invariant done == Updated(t[..i], col, x, y)
      {
        UpdatedSnoc(t, i, col, x, y);
        if Get(t[i], col) == x {
          done := done + [Set(t[i], col, y)];
        } else {
          done := done + [t[i]];
        }
        i := i + 1;
      }
      assert t[..i] == t;
      rows := done;
    }

    /** Adds `row` to the table; the rows already there stay as they are. */
    method Insert(row: Row)
      modifies this
      ensures rows == old(rows) + [row]
    {
      rows := rows + [row];
    }
  }
}
