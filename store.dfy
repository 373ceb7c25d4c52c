/**
 * The state the request handlers share: the `student` table of the database
 * and the visitor's session (`$_SESSION`), plus what a handler ends with.
 */
module Store {

  datatype Option<T> = None | Some(value: T)

  /**
   * One row of the `student` table: `id` is assigned by AUTO_INCREMENT,
   * `file` is NULL (None) or the stored upload path, `date` is the
   * server-assigned creation timestamp (the `Date` column).
   */
  datatype Student = Student(
    id: int,
    fname: string,
    lname: string,
    email: string,
    password: string,
    file: Option<string>,
    date: string)

  /** How a request ends: a `Location:` redirect followed by `exit()`, or a plain response. */
  datatype Outcome = Redirect(location: string) | NoRedirect

  predicate IdsDistinct(rows: seq<Student>) {
    forall i, j :: 0 <= i < j < |rows| ==> rows[i].id != rows[j].id
  }

  predicate EmailsUnique(rows: seq<Student>) {
    forall i, j :: 0 <= i < j < |rows| ==> rows[i].email != rows[j].email
  }

  /** Some row holds `email` (`SELECT email FROM student WHERE email = ...` returns a row). */
  predicate EmailRegistered(rows: seq<Student>, email: string) {
    exists i :: 0 <= i < |rows| && rows[i].email == email
  }

  predicate IdsAbove(rows: seq<Student>, id: int) {
    forall i :: 0 <= i < |rows| ==> rows[i].id > id
  }

  /** Ids strictly decrease along `rows` (the order of `ORDER BY id DESC` on distinct ids). */
  predicate StrictlyDescending(rows: seq<Student>) {
    forall i, j :: 0 <= i < j < |rows| ==> rows[i].id > rows[j].id
  }

  /** Places `x` into descending-by-id `rows`, in front of the first row whose id is not larger. */
  function InsertById(x: Student, rows: seq<Student>): (r: seq<Student>)
    ensures multiset(r) == multiset(rows) + multiset{x}
  {
    if rows == [] || rows[0].id <= x.id then [x] + rows
    else
      assert rows == [rows[0]] + rows[1..];
      [rows[0]] + InsertById(x, rows[1..])
  }

  /** Every row of `InsertById(x, rows)` is `x` or a row of `rows`, so an upper bound on their ids carries over. */
  lemma InsertByIdBelow(x: Student, rows: seq<Student>, bound: int)
    requires x.id < bound && forall i :: 0 <= i < |rows| ==> rows[i].id < bound
    ensures forall k :: 0 <= k < |InsertById(x, rows)| ==> InsertById(x, rows)[k].id < bound
  {
    var r := InsertById(x, rows);
    forall k | 0 <= k < |r| ensures r[k].id < bound {
      assert r[k] in multiset(r);
      if r[k] != x {
        assert r[k] in multiset(rows);
        var m :| 0 <= m < |rows| && rows[m] == r[k];
      }
    }
  }

  /** Inserting a row whose id is not yet present keeps the order strictly descending. */
  lemma {:induction false} InsertByIdDescending(x: Student, rows: seq<Student>)
    requires StrictlyDescending(rows)
    requires forall i :: 0 <= i < |rows| ==> rows[i].id != x.id
    ensures StrictlyDescending(InsertById(x, rows))
  {
    if rows != [] && rows[0].id > x.id {
      var tail := InsertById(x, rows[1..]);
      InsertByIdDescending(x, rows[1..]);
      InsertByIdBelow(x, rows[1..], rows[0].id);
      var r := [rows[0]] + tail;
      forall i, j | 0 <= i < j < |r| ensures r[i].id > r[j].id {
        assert r[j] == tail[j - 1];
        if i > 0 {
          assert r[i] == tail[i - 1];
        }
      }
      assert InsertById(x, rows) == r;
    }
  }

  /**
   * `SELECT * FROM student ORDER BY id DESC`: the table's rows, newest (largest
   * id) first. Ids are distinct, so only one order qualifies (see
   * `DescendingOrderUnique`), and this insertion sort is a reference for it.
   */
  function OrderByIdDesc(rows: seq<Student>): (r: seq<Student>)
    ensures multiset(r) == multiset(rows)
  {
    if rows == [] then []
    else
      assert rows == [rows[0]] + rows[1..];
      InsertById(rows[0], OrderByIdDesc(rows[1..]))
  }

  /** With distinct ids the query's rows come out in strictly descending id order. */
  lemma {:induction false} OrderByIdDescDescending(rows: seq<Student>)
    requires IdsDistinct(rows)
    ensures StrictlyDescending(OrderByIdDesc(rows))
    ensures |OrderByIdDesc(rows)| == |rows|
  {
    if rows != [] {
      var rest := OrderByIdDesc(rows[1..]);
      OrderByIdDescDescending(rows[1..]);
      forall i | 0 <= i < |rest| ensures rest[i].id != rows[0].id {
        assert rest[i] in multiset(rows[1..]);
        var k :| 0 <= k < |rows[1..]| && rows[1..][k] == rest[i];
        assert rows[k + 1] == rest[i];
      }
      InsertByIdDescending(rows[0], rest);
    }
    assert |multiset(OrderByIdDesc(rows))| == |multiset(rows)|;
  }

  /** Strictly descending arrangements of the same rows start with the same row. */
  lemma SameFirstRow(a: seq<Student>, b: seq<Student>)
    requires StrictlyDescending(a) && StrictlyDescending(b)
    requires multiset(a) == multiset(b) && a != []
    ensures b != [] && a[0] == b[0]
  {
    assert a[0] in multiset(b);
    var i :| 0 <= i < |b| && b[i] == a[0];
    assert b[0] in multiset(a);
    var j :| 0 <= j < |a| && a[j] == b[0];
    assert a[0].id >= a[j].id && b[0].id >= b[i].id;
  }

  /** Removing the same first row from two arrangements of the same rows leaves arrangements of the same rows. */
  lemma SameRestRows(a: seq<Student>, b: seq<Student>)
    requires a != [] && b != [] && a[0] == b[0]
    requires multiset(a) == multiset(b)
    ensures multiset(a[1..]) == multiset(b[1..])
  {
    assert a == [a[0]] + a[1..];
    assert b == [b[0]] + b[1..];
    assert multiset(a[1..]) == multiset(a) - multiset{a[0]};
    assert multiset(b[1..]) == multiset(b) - multiset{b[0]};
  }

  /**
   * Two strictly descending arrangements of the same rows are the same
   * sequence: any correct evaluation of `ORDER BY id DESC` yields exactly
   * `OrderByIdDesc`.
   */
  lemma {:induction false} DescendingOrderUnique(a: seq<Student>, b: seq<Student>)
    requires StrictlyDescending(a) && StrictlyDescending(b)
    requires multiset(a) == multiset(b)
    ensures a == b
  {
    if a != [] {
      SameFirstRow(a, b);
      SameRestRows(a, b);
      DescendingOrderUnique(a[1..], b[1..]);
      assert a == [a[0]] + a[1..] && b == [b[0]] + b[1..];
    } else {
      assert |b| == |multiset(b)| == |multiset(a)| == 0;
    }
  }

  /**
   * The table after `UPDATE student SET fname=.., lname=.., email=.., password=..
   * WHERE id=..`: every row with that id gets the four columns and keeps its id,
   * file and date; every other row is untouched, and no row is added or removed.
   */
  function UpdatedRows(rows: seq<Student>, id: int, fname: string, lname: string, email: string, password: string): (r: seq<Student>)
    ensures |r| == |rows|
    ensures forall i :: 0 <= i < |r| ==> r[i].id == rows[i].id && r[i].file == rows[i].file && r[i].date == rows[i].date
    ensures forall i :: 0 <= i < |r| && rows[i].id == id ==>
      r[i].fname == fname && r[i].lname == lname && r[i].email == email && r[i].password == password
    ensures forall i :: 0 <= i < |r| && rows[i].id != id ==> r[i] == rows[i]
  {
    seq(|rows|, i requires 0 <= i < |rows| =>
      if rows[i].id == id
      then rows[i].(fname := fname, lname := lname, email := email, password := password)
      else rows[i])
  }

  /**
   * The `student` table. `nextId` is the table's AUTO_INCREMENT counter: every
   * stored id lies below it, so the id handed to a new row is unused.
   */
  class StudentTable {
    var rows: seq<Student>
    var nextId: int

    ghost predicate Valid()
      reads this
    {
      IdsDistinct(rows) && forall i :: 0 <= i < |rows| ==> rows[i].id < nextId
    }

    constructor ()
      ensures Valid() && rows == [] && nextId == 1
    {
      rows := [];
      nextId := 1;
    }

    /** `INSERT INTO student ...`: appends one row with a fresh id; `Valid` is kept. */
    method Insert(fname: string, lname: string, email: string, password: string, file: Option<string>, date: string)
      returns (id: int)
      requires Valid()
      modifies this
      ensures Valid()
      ensures id == old(nextId) && nextId == old(nextId) + 1
      ensures rows == old(rows) + [Student(id, fname, lname, email, password, file, date)]
      ensures forall i :: 0 <= i < |old(rows)| ==> old(rows)[i].id != id
    {
      id := nextId;
      rows := rows + [Student(id, fname, lname, email, password, file, date)];
      nextId := nextId + 1;
    }

    /** `UPDATE student SET ... WHERE id=..`: the rows become `UpdatedRows` of the old ones. */
    method UpdateWhereId(id: int, fname: string, lname: string, email: string, password: string)
      requires Valid()
      modifies this
      ensures Valid() && nextId == old(nextId)
      ensures rows == UpdatedRows(old(rows), id, fname, lname, email, password)
    {
      rows := UpdatedRows(rows, id, fname, lname, email, password);
      assert forall i :: 0 <= i < |rows| ==> rows[i].id == old(rows)[i].id;
    }
  }

  /**
   * The visitor's session: the flash list `error`, the flash string `message`
   * and the one-shot delete flash stored under the key `deleleted` (sic).
   * An unset key is None.
   */
  class Session {
    var error: seq<string>
    var message: Option<string>
    var deleted: Option<string>

    constructor (error: seq<string>, message: Option<string>, deleted: Option<string>)
      ensures this.error == error && this.message == message && this.deleted == deleted
    {
      this.error := error;
      this.message := message;
      this.deleted := deleted;
    }
  }
}
