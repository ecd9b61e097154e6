/** The in-memory stand-in for the JPA repositories: a table is a sequence
    of rows in insertion order. Tables whose rows carry an IDENTITY code are
    append-only (the services soft-delete by clearing `active`), so the row
    with code `c` sits at position `c - 1`. */
module Tables {
  import opened Common

  /** Row `i` carries code `i + 1`: the IDENTITY column hands out 1, 2, … */
  ghost predicate Coded<R>(rows: seq<R>, code: R -> int) {
    forall i :: 0 <= i < |rows| ==> code(rows[i]) == i + 1
  }

  /** `repository.findById(c)` on a coded table. */
  function FindByCode<R>(rows: seq<R>, code: R -> int, c: int): (r: Option<R>)
    requires Coded(rows, code)
    ensures r.Some? <==> exists i :: 0 <= i < |rows| && code(rows[i]) == c
    ensures r.Some? ==> r.value in rows && code(r.value) == c
  {
    if 1 <= c <= |rows| then
      assert code(rows[c - 1]) == c;
      Some(rows[c - 1])
    else
      None
  }

  /** `rows[c - 1] := row`: the saved row replaces the one with its code. */
  lemma {:induction false} CodedUpdate<R>(rows: seq<R>, code: R -> int, row: R)
    requires Coded(rows, code) && 1 <= code(row) <= |rows|
    ensures Coded(rows[code(row) - 1 := row], code)
  {
    var updated := rows[code(row) - 1 := row];
    forall i | 0 <= i < |updated| ensures code(updated[i]) == i + 1 {
      if i != code(row) - 1 {
        assert updated[i] == rows[i];
      }
    }
  }

  /** Appending a row with the next code keeps the table coded. */
  lemma {:induction false} CodedAppend<R>(rows: seq<R>, code: R -> int, row: R)
    requires Coded(rows, code) && code(row) == |rows| + 1
    ensures Coded(rows + [row], code)
  {
    forall i | 0 <= i < |rows| + 1 ensures code((rows + [row])[i]) == i + 1 {
      if i < |rows| {
        assert (rows + [row])[i] == rows[i];
      }
    }
  }

  /** The rows a derived query (`findBy…AndActiveTrue`) returns, in table order. */
  function Filter<R(!new)>(rows: seq<R>, p: R -> bool): (r: seq<R>)
    ensures |r| <= |rows|
    ensures forall x :: x in r <==> x in rows && p(x)
  {
    if rows == [] then []
    else if p(rows[0]) then
      assert rows == [rows[0]] + rows[1..];
      [rows[0]] + Filter(rows[1..], p)
    else
      assert rows == [rows[0]] + rows[1..];
      Filter(rows[1..], p)
  }

  /** The position of a row known to be in the table. */
  function IndexIn<R(==)>(rows: seq<R>, row: R): (i: int)
    requires row in rows
    ensures 0 <= i < |rows| && rows[i] == row
  {
    if rows[0] == row then 0 else 1 + IndexIn(rows[1..], row)
  }

  lemma ConcatAssoc<R>(a: seq<R>, b: seq<R>, c: seq<R>)
    ensures a + (b + c) == (a + b) + c
  {
  }

  /** Filtering a row followed by a table. */
  lemma {:induction false} FilterCons<R(!new)>(x: R, t: seq<R>, p: R -> bool)
    ensures Filter([x] + t, p) == (if p(x) then [x] else []) + Filter(t, p)
  {
    assert ([x] + t)[1..] == t;
  }

  /** The step of `FilterConcat`: a row in front of both sides. */
  lemma {:induction false} FilterConcatCons<R(!new)>(x: R, t: seq<R>, b: seq<R>, p: R -> bool)
    requires Filter(t + b, p) == Filter(t, p) + Filter(b, p)
    ensures Filter([x] + t + b, p) == Filter([x] + t, p) + Filter(b, p)
  {
    var h := if p(x) then [x] else [];
    assert [x] + t + b == [x] + (t + b);
    FilterCons(x, t + b, p);
    FilterCons(x, t, p);
    ConcatAssoc(h, Filter(t, p), Filter(b, p));
  }

  /** Filtering distributes over concatenation. */
  lemma {:induction false} FilterConcat<R(!new)>(a: seq<R>, b: seq<R>, p: R -> bool)
    ensures Filter(a + b, p) == Filter(a, p) + Filter(b, p)
  {
    if a == [] {
      assert a + b == b;
    } else {
      FilterConcat(a[1..], b, p);
      FilterConcatCons(a[0], a[1..], b, p);
      assert a == [a[0]] + a[1..];
    }
  }

  /** Replacing one row changes the number of selected rows by what the old
      and the new row contribute. */
  lemma {:induction false} FilterCountUpdate<R(!new)>(rows: seq<R>, i: int, x: R, p: R -> bool)
    requires 0 <= i < |rows|
    ensures |Filter(rows[i := x], p)| ==
      |Filter(rows, p)| - (if p(rows[i]) then 1 else 0) + (if p(x) then 1 else 0)
  {
    assert rows == rows[..i] + [rows[i]] + rows[i + 1..];
    assert rows[i := x] == rows[..i] + [x] + rows[i + 1..];
    FilterConcat(rows[..i] + [rows[i]], rows[i + 1..], p);
    FilterConcat(rows[..i], [rows[i]], p);
    FilterConcat(rows[..i] + [x], rows[i + 1..], p);
    FilterConcat(rows[..i], [x], p);
    assert [rows[i]][1..] == [] && [x][1..] == [];
  }

  /** Position of the first row with key `k`, or -1. */
  function IndexOf<R, K(==)>(rows: seq<R>, key: R -> K, k: K): (i: int)
    ensures -1 <= i < |rows|
    ensures 0 <= i ==> key(rows[i]) == k
    ensures forall j :: 0 <= j < |rows| && (i < 0 || j < i) ==> key(rows[j]) != k
  {
    if rows == [] then -1
    else if key(rows[0]) == k then 0
    else
      var t := IndexOf(rows[1..], key, k);
      if t < 0 then -1 else t + 1
  }

  /** `repository.findById(k)` on a table keyed by `key`. */
  function Lookup<R, K(==)>(rows: seq<R>, key: R -> K, k: K): (r: Option<R>)
    ensures r.None? <==> forall j :: 0 <= j < |rows| ==> key(rows[j]) != k
    ensures r.Some? ==> r.value in rows && key(r.value) == k
  {
    var i := IndexOf(rows, key, k);
    if i < 0 then None else Some(rows[i])
  }

  lemma {:induction false} LookupCons<R, K>(x: R, t: seq<R>, key: R -> K, k: K)
    ensures Lookup([x] + t, key, k) == if key(x) == k then Some(x) else Lookup(t, key, k)
  {
    assert ([x] + t)[1..] == t;
  }

  /** Two tables that agree wherever either holds key `k` answer the same. */
  lemma {:induction false} LookupAgree<R, K>(a: seq<R>, b: seq<R>, key: R -> K, k: K)
    requires |a| == |b|
    requires forall j :: 0 <= j < |a| && (key(a[j]) == k || key(b[j]) == k) ==> a[j] == b[j]
    ensures Lookup(a, key, k) == Lookup(b, key, k)
  {
    if a != [] {
      LookupAgree(a[1..], b[1..], key, k);
      assert a == [a[0]] + a[1..] && b == [b[0]] + b[1..];
      LookupCons(a[0], a[1..], key, k);
      LookupCons(b[0], b[1..], key, k);
    }
  }

  /** A row appended after the others is found only when no earlier row has its key. */
  lemma {:induction false} LookupAppend<R, K>(rows: seq<R>, row: R, key: R -> K, k: K)
    ensures Lookup(rows + [row], key, k) ==
      if Lookup(rows, key, k).Some? then Lookup(rows, key, k)
      else if key(row) == k then Some(row) else None
  {
    if rows != [] {
      LookupAppend(rows[1..], row, key, k);
      assert rows + [row] == [rows[0]] + (rows[1..] + [row]);
      assert rows == [rows[0]] + rows[1..];
      LookupCons(rows[0], rows[1..] + [row], key, k);
      LookupCons(rows[0], rows[1..], key, k);
    }
  }

  /** The row at `i` is found when no earlier row has its key. */
  lemma {:induction false} LookupPrefix<R, K>(rows: seq<R>, key: R -> K, i: int)
    requires 0 <= i < |rows|
    requires forall j :: 0 <= j < i ==> key(rows[j]) != key(rows[i])
    ensures Lookup(rows, key, key(rows[i])) == Some(rows[i])
  {
    if i > 0 {
      LookupPrefix(rows[1..], key, i - 1);
      assert rows == [rows[0]] + rows[1..];
      LookupCons(rows[0], rows[1..], key, key(rows[i]));
    }
  }

  /** No two rows share a key. */
  ghost predicate UniqueKeys<R, K>(rows: seq<R>, key: R -> K) {
    forall i, j :: 0 <= i < j < |rows| ==> key(rows[i]) != key(rows[j])
  }

  /** Replacing a row by one with the same key keeps the keys unique. */
  lemma {:induction false} UniqueKeysReplace<R, K>(rows: seq<R>, key: R -> K, i: int, row: R)
    requires UniqueKeys(rows, key) && 0 <= i < |rows| && key(row) == key(rows[i])
    ensures UniqueKeys(rows[i := row], key)
  {
    var updated := rows[i := row];
    forall p, q | 0 <= p < q < |updated| ensures key(updated[p]) != key(updated[q]) {
      assert key(updated[p]) == key(rows[p]) && key(updated[q]) == key(rows[q]);
    }
  }

  /** `repository.save(row)`: JPA merges on the primary key, so the row
      replaces the one with the same key, or is appended when there is none. */
  function Upsert<R, K(==,!new)>(rows: seq<R>, key: R -> K, row: R): (r: seq<R>)
    ensures Lookup(r, key, key(row)) == Some(row)
    ensures forall k :: k != key(row) ==> Lookup(r, key, k) == Lookup(rows, key, k)
    ensures UniqueKeys(rows, key) ==> UniqueKeys(r, key)
  {
    var i := IndexOf(rows, key, key(row));
    if i < 0 then
      var r := rows + [row];
      LookupAppend(rows, row, key, key(row));
      forall k | k != key(row) ensures Lookup(r, key, k) == Lookup(rows, key, k) {
        LookupAppend(rows, row, key, k);
      }
      r
    else
      var r := rows[i := row];
      forall k | k != key(row) ensures Lookup(r, key, k) == Lookup(rows, key, k) {
        LookupAgree(r, rows, key, k);
      }
      LookupPrefix(rows, key, i);
      LookupPrefix(r, key, i);
      r
  }

  /** `repository.delete(row)`: the row with that key disappears. */
  function Remove<R, K(==,!new)>(rows: seq<R>, key: R -> K, k: K): (r: seq<R>)
    ensures Lookup(r, key, k) == None
    ensures forall k' :: k' != k ==> Lookup(r, key, k') == Lookup(rows, key, k')
    ensures forall j :: 0 <= j < |r| ==> r[j] in rows
    ensures UniqueKeys(rows, key) ==> UniqueKeys(r, key)
  {
    if rows == [] then []
    else
      var t := Remove(rows[1..], key, k);
      assert rows == [rows[0]] + rows[1..];
      forall k' ensures Lookup(rows, key, k') == if key(rows[0]) == k' then Some(rows[0]) else Lookup(rows[1..], key, k') {
        LookupCons(rows[0], rows[1..], key, k');
      }
      if key(rows[0]) == k then t
      else
        forall k' ensures Lookup([rows[0]] + t, key, k') == if key(rows[0]) == k' then Some(rows[0]) else Lookup(t, key, k') {
          LookupCons(rows[0], t, key, k');
        }
        [rows[0]] + t
  }

  /** Saving a row that is already stored under its key changes nothing. */
  lemma {:induction false} UpsertUnchanged<R, K(!new)>(rows: seq<R>, key: R -> K, row: R)
    requires Lookup(rows, key, key(row)) == Some(row)
    ensures Upsert(rows, key, row) == rows
  {
    var i := IndexOf(rows, key, key(row));
    assert rows[i := row] == rows;
  }

  /** With unique keys, the row found under a key is the only one with it. */
  lemma {:induction false} LookupOnly<R, K>(rows: seq<R>, key: R -> K, k: K, j: int)
    requires UniqueKeys(rows, key) && 0 <= j < |rows| && key(rows[j]) == k
    ensures Lookup(rows, key, k) == Some(rows[j])
  {
    LookupPrefix(rows, key, j);
  }

  /** Saving a row changes the number of selected rows by what the row it
      replaces, if any, and the saved row contribute. */
  lemma {:induction false} FilterCountUpsert<R(!new), K(!new)>(rows: seq<R>, key: R -> K, row: R, p: R -> bool)
    ensures var old_ := Lookup(rows, key, key(row));
      |Filter(Upsert(rows, key, row), p)| ==
        |Filter(rows, p)| - (if old_.Some? && p(old_.value) then 1 else 0) + (if p(row) then 1 else 0)
  {
    var i := IndexOf(rows, key, key(row));
    if i < 0 {
      FilterConcat(rows, [row], p);
      assert [row][1..] == [];
    } else {
      FilterCountUpdate(rows, i, row, p);
    }
  }

  /** One page of a query result: `PageRequest.of(number, size)` skips
      `number * size` rows and keeps at most `size`. */
  function PageOf<R>(rows: seq<R>, number: nat, size: nat): (r: seq<R>)
    ensures |r| <= size
    ensures number * size < |rows| ==> |r| == if number * size + size <= |rows| then size else |rows| - number * size
    ensures forall i :: 0 <= i < |r| ==> number * size + i < |rows| && r[i] == rows[number * size + i]
  {
    var from := if number * size <= |rows| then number * size else |rows|;
    var to := if from + size <= |rows| then from + size else |rows|;
    rows[from..to]
  }

  /** A page is a slice of the rows. */
  lemma PageSlice<R>(rows: seq<R>, number: nat, size: nat) returns (from: nat, to: nat)
    ensures from <= to <= |rows| && PageOf(rows, number, size) == rows[from..to]
    ensures number == 0 ==> from == 0 && to == if size <= |rows| then size else |rows|
  {
    from := if number * size <= |rows| then number * size else |rows|;
    to := if from + size <= |rows| then from + size else |rows|;
  }
}
