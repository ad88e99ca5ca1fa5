/** The statements the store runs against the `phone` table, as functions on
    the table's rows (kept in insertion order). */
module PhoneTable {
  import opened Schema

  /** The two WHERE clauses the source uses on `phone`:
      `client_id = %s` and `client_id = %s AND phone = %s`. */
  datatype Where = ClientIs(clientId: int) | ClientAndNumberAre(clientId: int, number: string)

  predicate Selects(w: Where, row: Phone)
  {
    match w
    case ClientIs(c) => row.clientId == c
    case ClientAndNumberAre(c, n) => row.clientId == c && row.number == n
  }

  /** Phone ids grow along the table: every row got a fresh SERIAL id when it
      was appended, so no two rows share an id (the PRIMARY KEY). */
  ghost predicate IdsIncreasing(rows: seq<Phone>)
  {
    forall i, j :: 0 <= i < j < |rows| ==> rows[i].id < rows[j].id
  }

  /** `SELECT * FROM phone WHERE w`, in table order. */
  function SelectWhere(rows: seq<Phone>, w: Where): (r: seq<Phone>)
    ensures |r| <= |rows|
    ensures forall k :: 0 <= k < |r| ==> Selects(w, r[k])
  {
    if rows == [] then []
    else
      var last := rows[|rows| - 1];
      SelectWhere(rows[..|rows| - 1], w) + (if Selects(w, last) then [last] else [])
  }

  /** `DELETE FROM phone WHERE w`: the rows that remain, in table order. */
  function DeleteWhere(rows: seq<Phone>, w: Where): (r: seq<Phone>)
    ensures |r| <= |rows|
    ensures forall k :: 0 <= k < |r| ==> !Selects(w, r[k])
  {
    if rows == [] then []
    else
      var last := rows[|rows| - 1];
      DeleteWhere(rows[..|rows| - 1], w) + (if Selects(w, last) then [] else [last])
  }

  /** The numbers of the given rows, in order (`[row[0] for row in ...]`). */
  function Numbers(rows: seq<Phone>): seq<string>
  {
    seq(|rows|, k requires 0 <= k < |rows| => rows[k].number)
  }

  /** `SELECT phone FROM phone WHERE client_id = %s`. */
  function NumbersOf(rows: seq<Phone>, clientId: int): (r: seq<string>)
    ensures |r| <= |rows|
  {
    Numbers(SelectWhere(rows, ClientIs(clientId)))
  }

  /** The rows `add_phone` appends for the numbers `numbers` of one client,
      drawing ids from the sequence starting at `firstId`. */
  function NewRows(clientId: int, numbers: seq<string>, firstId: int): seq<Phone>
  {
    seq(|numbers|, k requires 0 <= k < |numbers| => Phone(firstId + k, clientId, numbers[k]))
  }

  lemma SelectWhereSnoc(rows: seq<Phone>, x: Phone, w: Where)
    ensures SelectWhere(rows + [x], w) == SelectWhere(rows, w) + (if Selects(w, x) then [x] else [])
  {
    assert (rows + [x])[..|rows|] == rows;
  }

  /** A SELECT returns exactly the rows that match. */
  lemma {:induction false} SelectWhereMembers(rows: seq<Phone>, w: Where)
    ensures forall x :: x in SelectWhere(rows, w) <==> x in rows && Selects(w, x)
  {
    if rows != [] {
      var front, last := rows[..|rows| - 1], rows[|rows| - 1];
      SelectWhereMembers(front, w);
      assert rows == front + [last];
    }
  }

  /** A DELETE keeps exactly the rows that do not match. */
  lemma {:induction false} DeleteWhereMembers(rows: seq<Phone>, w: Where)
    ensures forall x :: x in DeleteWhere(rows, w) <==> x in rows && !Selects(w, x)
  {
    if rows != [] {
      var front, last := rows[..|rows| - 1], rows[|rows| - 1];
      DeleteWhereMembers(front, w);
      assert rows == front + [last];
    }
  }

  /** A DELETE that matches no row leaves the table as it was. */
  lemma {:induction false} DeleteWhereNoMatch(rows: seq<Phone>, w: Where)
    requires forall k :: 0 <= k < |rows| ==> !Selects(w, rows[k])
    ensures DeleteWhere(rows, w) == rows
  {
    if rows != [] {
      var front, last := rows[..|rows| - 1], rows[|rows| - 1];
      DeleteWhereNoMatch(front, w);
      assert rows == front + [last];
    }
  }

  lemma {:induction false} SelectWhereAppend(a: seq<Phone>, b: seq<Phone>, w: Where)
    ensures SelectWhere(a + b, w) == SelectWhere(a, w) + SelectWhere(b, w)
    decreases |b|
  {
    if b == [] {
      assert a + b == a;
    } else {
      var front, last := b[..|b| - 1], b[|b| - 1];
      SelectWhereAppend(a, front, w);
      assert a + b == (a + front) + [last];
      assert b == front + [last];
      SelectWhereSnoc(a + front, last, w);
      SelectWhereSnoc(front, last, w);
    }
  }

  /** A DELETE removes exactly the rows the matching SELECT returns: the two
      split the table. */
  lemma {:induction false} DeleteSelectPartition(rows: seq<Phone>, w: Where)
    ensures multiset(DeleteWhere(rows, w)) + multiset(SelectWhere(rows, w)) == multiset(rows)
    ensures |DeleteWhere(rows, w)| + |SelectWhere(rows, w)| == |rows|
  {
    if rows != [] {
      var front := rows[..|rows| - 1];
      assert rows == front + [rows[|rows| - 1]];
      DeleteSelectPartition(front, w);
    }
  }

  /** A DELETE leaves every row that a disjoint WHERE selects. */
  lemma {:induction false} DeleteKeepsUnmatched(rows: seq<Phone>, w: Where, v: Where)
    requires forall x :: Selects(v, x) ==> !Selects(w, x)
    ensures SelectWhere(DeleteWhere(rows, w), v) == SelectWhere(rows, v)
  {
    if rows != [] {
      var front, last := rows[..|rows| - 1], rows[|rows| - 1];
      DeleteKeepsUnmatched(front, w, v);
      var d := DeleteWhere(front, w);
      if Selects(w, last) {
        assert d + [] == d;
      } else {
        SelectWhereSnoc(d, last, v);
      }
    }
  }

  /** A DELETE removes every row that a narrower WHERE selects. */
  lemma {:induction false} DeleteRemovesMatched(rows: seq<Phone>, w: Where, v: Where)
    requires forall x :: Selects(v, x) ==> Selects(w, x)
    ensures SelectWhere(DeleteWhere(rows, w), v) == []
  {
    if rows != [] {
      var front, last := rows[..|rows| - 1], rows[|rows| - 1];
      DeleteRemovesMatched(front, w, v);
      var d := DeleteWhere(front, w);
      if Selects(w, last) {
        assert d + [] == d;
      } else {
        SelectWhereSnoc(d, last, v);
      }
    }
  }

  /** After `DELETE ... WHERE client_id = c`, the phones of every other
      client are exactly what they were, and c has none. */
  lemma SelectAfterDeleteClient(rows: seq<Phone>, c: int, other: int)
    ensures SelectWhere(DeleteWhere(rows, ClientIs(c)), ClientIs(other))
         == if other == c then [] else SelectWhere(rows, ClientIs(other))
  {
    if other == c {
      DeleteRemovesMatched(rows, ClientIs(c), ClientIs(other));
    } else {
      DeleteKeepsUnmatched(rows, ClientIs(c), ClientIs(other));
    }
  }

  /** After `DELETE ... WHERE client_id = c AND phone = number`, client c
      holds no row with that number and as many rows with any other number
      as before, and every other client's rows are exactly what they were. */
  lemma SelectAfterDeleteNumber(rows: seq<Phone>, c: int, number: string, other: int, n: string)
    ensures SelectWhere(DeleteWhere(rows, ClientAndNumberAre(c, number)), ClientAndNumberAre(c, n))
         == if n == number then [] else SelectWhere(rows, ClientAndNumberAre(c, n))
    ensures other != c ==>
              (SelectWhere(DeleteWhere(rows, ClientAndNumberAre(c, number)), ClientIs(other))
               == SelectWhere(rows, ClientIs(other)))
  {
    var w := ClientAndNumberAre(c, number);
    if n == number {
      DeleteRemovesMatched(rows, w, ClientAndNumberAre(c, n));
    } else {
      DeleteKeepsUnmatched(rows, w, ClientAndNumberAre(c, n));
    }
    if other != c {
      DeleteKeepsUnmatched(rows, w, ClientIs(other));
    }
  }

  /** How often a number occurs in a client's phone list is how many rows
      hold that client and that number. */
  lemma {:induction false} NumbersOfCount(rows: seq<Phone>, clientId: int, n: string)
    ensures multiset(NumbersOf(rows, clientId))[n] == |SelectWhere(rows, ClientAndNumberAre(clientId, n))|
  {
    if rows != [] {
      var last := rows[|rows| - 1];
      var front := rows[..|rows| - 1];
      NumbersOfCount(front, clientId, n);
      var s := SelectWhere(front, ClientIs(clientId));
      var tail := if Selects(ClientIs(clientId), last) then [last] else [];
      assert Numbers(s + tail) == Numbers(s) + Numbers(tail);
    }
  }

  lemma NewRowsSnoc(clientId: int, numbers: seq<string>, firstId: int)
    requires numbers != []
    ensures NewRows(clientId, numbers, firstId)
         == NewRows(clientId, numbers[..|numbers| - 1], firstId)
              + [Phone(firstId + |numbers| - 1, clientId, numbers[|numbers| - 1])]
  {
  }

  /** Selecting one client's rows from freshly appended rows of that client
      gives them all back, and gives none to any other client. */
  lemma {:induction false} SelectNewRows(clientId: int, numbers: seq<string>, firstId: int, other: int)
    ensures SelectWhere(NewRows(clientId, numbers, firstId), ClientIs(other))
         == if other == clientId then NewRows(clientId, numbers, firstId) else []
    decreases |numbers|
  {
    if numbers != [] {
      var front := numbers[..|numbers| - 1];
      var last := Phone(firstId + |numbers| - 1, clientId, numbers[|numbers| - 1]);
      NewRowsSnoc(clientId, numbers, firstId);
      SelectNewRows(clientId, front, firstId, other);
      SelectWhereSnoc(NewRows(clientId, front, firstId), last, ClientIs(other));
    }
  }

  lemma NumbersNewRows(clientId: int, numbers: seq<string>, firstId: int)
    ensures Numbers(NewRows(clientId, numbers, firstId)) == numbers
  {
  }

  /** Deleting rows keeps the remaining ids in increasing order. */
  lemma {:induction false} DeleteKeepsIdsIncreasing(rows: seq<Phone>, w: Where)
    requires IdsIncreasing(rows)
    ensures IdsIncreasing(DeleteWhere(rows, w))
  {
    if rows != [] {
      var last := rows[|rows| - 1];
      var front := rows[..|rows| - 1];
      DeleteKeepsIdsIncreasing(front, w);
      DeleteWhereMembers(front, w);
      var d := DeleteWhere(front, w);
      forall i | 0 <= i < |d|
        ensures d[i].id < last.id
      {
        assert d[i] in d;
        assert d[i] in front;
      }
    }
  }

  /** The numbers of a client that had no rows, once rows were appended for
      it, are exactly the appended numbers, in order. */
  lemma NumbersOfNewClient(rows: seq<Phone>, clientId: int, numbers: seq<string>, firstId: int)
    requires forall x :: x in rows ==> x.clientId != clientId
    ensures NumbersOf(rows + NewRows(clientId, numbers, firstId), clientId) == numbers
  {
    var s := SelectWhere(rows, ClientIs(clientId));
    SelectWhereMembers(rows, ClientIs(clientId));
    if s != [] {
      assert s[0] in rows;
    }
    SelectWhereAppend(rows, NewRows(clientId, numbers, firstId), ClientIs(clientId));
    SelectNewRows(clientId, numbers, firstId, clientId);
    NumbersNewRows(clientId, numbers, firstId);
  }
}
