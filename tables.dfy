/** The table operations the repositories are built from, over a table kept
    as the sequence of its rows in insertion order: lookup by key, update and
    delete of the rows with a key, and selection newest-created first. The
    key and the creation time of a row are given as functions, so that the
    reference, history and user tables share one definition. */
module Tables {
  import opened Common

  /** No two rows share a key (a primary key). */
  ghost predicate UniqueKeys<T>(rows: seq<T>, key: T -> string)
  {
    forall i, j :: 0 <= i < j < |rows| ==> key(rows[i]) != key(rows[j])
  }

  /** Rows were inserted in order of their creation time. */
  ghost predicate Chronological<T>(rows: seq<T>, at: T -> Time)
  {
    forall i, j :: 0 <= i < j < |rows| ==> at(rows[i]) <= at(rows[j])
  }

  /** Rows are listed newest-created first (ORDER BY created_at DESC). */
  ghost predicate NewestToOldest<T>(rows: seq<T>, at: T -> Time)
  {
    forall i, j :: 0 <= i < j < |rows| ==> at(rows[i]) >= at(rows[j])
  }

  /** The row with key `k`, as a single-row query finds it; None when no row has it. */
  function Lookup<T>(rows: seq<T>, key: T -> string, k: string): (r: Option<T>)
    ensures r.Some? ==> r.value in rows && key(r.value) == k
    ensures r.None? <==> forall x :: x in rows ==> key(x) != k
  {
    if rows == [] then None
    else if key(rows[0]) == k then Some(rows[0])
    else Lookup(rows[1..], key, k)
  }

  /** With unique keys, the lookup of a row's key finds that very row. */
  lemma {:induction false} LookupAt<T>(rows: seq<T>, key: T -> string, i: nat)
    requires UniqueKeys(rows, key) && i < |rows|
    ensures Lookup(rows, key, key(rows[i])) == Some(rows[i])
  {
    if i > 0 {
      assert key(rows[0]) != key(rows[i]);
      assert UniqueKeys(rows[1..], key) by {
        forall a, b | 0 <= a < b < |rows| - 1
          ensures key(rows[1..][a]) != key(rows[1..][b])
        {
          assert rows[1..][a] == rows[a + 1] && rows[1..][b] == rows[b + 1];
        }
      }
      LookupAt(rows[1..], key, i - 1);
      assert rows[1..][i - 1] == rows[i];
    }
  }

  /** UPDATE ... WHERE key = k: every row with key `k` becomes `f` of itself. */
  function UpdateWhere<T>(rows: seq<T>, key: T -> string, k: string, f: T -> T): seq<T>
  {
    seq(|rows|, i requires 0 <= i < |rows| => if key(rows[i]) == k then f(rows[i]) else rows[i])
  }

  /** An update through a key-preserving `f` changes what the lookup of `k`
      finds into `f` of it, and what every other key finds not at all. */
  lemma {:induction false} UpdateWhereLookup<T>(rows: seq<T>, key: T -> string, k: string, f: T -> T, j: string)
    requires forall x :: key(f(x)) == key(x)
    ensures Lookup(UpdateWhere(rows, key, k, f), key, j)
            == if j != k then Lookup(rows, key, j)
               else match Lookup(rows, key, j) case None => None case Some(x) => Some(f(x))
  {
    if rows != [] {
      assert UpdateWhere(rows, key, k, f)[1..] == UpdateWhere(rows[1..], key, k, f);
      UpdateWhereLookup(rows[1..], key, k, f, j);
    }
  }

  /** An update by a key that no row has changes nothing. */
  lemma UpdateWhereAbsent<T>(rows: seq<T>, key: T -> string, k: string, f: T -> T)
    requires forall x :: x in rows ==> key(x) != k
    ensures UpdateWhere(rows, key, k, f) == rows
  {
    forall i | 0 <= i < |rows| ensures UpdateWhere(rows, key, k, f)[i] == rows[i] {
      assert rows[i] in rows;
    }
  }

  /** An update through an `f` that keeps keys and creation times keeps the
      keys unique and the rows chronological. */
  lemma UpdateWhereKeepsOrder<T>(rows: seq<T>, key: T -> string, at: T -> Time, k: string, f: T -> T)
    requires forall x :: key(f(x)) == key(x) && at(f(x)) == at(x)
    requires UniqueKeys(rows, key) && Chronological(rows, at)
    ensures UniqueKeys(UpdateWhere(rows, key, k, f), key)
    ensures Chronological(UpdateWhere(rows, key, k, f), at)
  {
  }

  /** DELETE ... WHERE key = k: the rows without key `k`, in their order. */
  function DeleteWhere<T(!new)>(rows: seq<T>, key: T -> string, k: string): (r: seq<T>)
    ensures |r| <= |rows|
    ensures forall x :: x in r <==> x in rows && key(x) != k
  {
    if rows == [] then []
    else if key(rows[0]) == k then DeleteWhere(rows[1..], key, k)
    else [rows[0]] + DeleteWhere(rows[1..], key, k)
  }

  /** Deleting keeps the keys unique and the remaining rows chronological. */
  lemma {:induction false} DeleteWhereKeepsOrder<T(!new)>(rows: seq<T>, key: T -> string, at: T -> Time, k: string)
    requires UniqueKeys(rows, key) && Chronological(rows, at)
    ensures UniqueKeys(DeleteWhere(rows, key, k), key)
    ensures Chronological(DeleteWhere(rows, key, k), at)
  {
    if rows != [] {
      var tail := rows[1..];
      assert UniqueKeys(tail, key) && Chronological(tail, at) by {
        forall a, b | 0 <= a < b < |tail|
          ensures key(tail[a]) != key(tail[b]) && at(tail[a]) <= at(tail[b])
        {
          assert tail[a] == rows[a + 1] && tail[b] == rows[b + 1];
        }
      }
      DeleteWhereKeepsOrder(tail, key, at, k);
      var d := DeleteWhere(tail, key, k);
      if key(rows[0]) != k {
        forall x | x in d ensures key(x) != key(rows[0]) && at(rows[0]) <= at(x) {
          var j :| 0 <= j < |tail| && tail[j] == x;
          assert tail[j] == rows[j + 1];
        }
        var r := [rows[0]] + d;
        forall a, b | 0 <= a < b < |r|
          ensures key(r[a]) != key(r[b]) && at(r[a]) <= at(r[b])
        {
          assert r[b] == d[b - 1] && d[b - 1] in d;
          if a > 0 { assert r[a] == d[a - 1]; }
        }
      }
    }
  }

  /** A deletion by key `k` removes what the lookup of `k` found and leaves
      every other key's row as it was. */
  lemma {:induction false} DeleteWhereLookup<T(!new)>(rows: seq<T>, key: T -> string, k: string, j: string)
    ensures Lookup(DeleteWhere(rows, key, k), key, j) == if j == k then None else Lookup(rows, key, j)
  {
    if rows != [] {
      DeleteWhereLookup(rows[1..], key, k, j);
    }
  }

  /** SELECT ... WHERE keep ORDER BY created_at DESC over rows kept in
      insertion order: the matching rows, the latest inserted first. */
  function NewestFirst<T(!new)>(rows: seq<T>, keep: T -> bool): (r: seq<T>)
    ensures |r| <= |rows|
    ensures forall x :: x in r <==> x in rows && keep(x)
  {
    if rows == [] then []
    else NewestFirst(rows[1..], keep) + (if keep(rows[0]) then [rows[0]] else [])
  }

  /** When the rows were inserted in creation order, the selection lists
      them newest-created first. */
  lemma {:induction false} NewestFirstIsNewestToOldest<T(!new)>(rows: seq<T>, keep: T -> bool, at: T -> Time)
    requires Chronological(rows, at)
    ensures NewestToOldest(NewestFirst(rows, keep), at)
  {
    if rows != [] {
      var tail := rows[1..];
      assert Chronological(tail, at) by {
        forall a, b | 0 <= a < b < |tail| ensures at(tail[a]) <= at(tail[b]) {
          assert tail[a] == rows[a + 1] && tail[b] == rows[b + 1];
        }
      }
      NewestFirstIsNewestToOldest(tail, keep, at);
      var s := NewestFirst(tail, keep);
      if keep(rows[0]) {
        forall x | x in s ensures at(rows[0]) <= at(x) {
          var j :| 0 <= j < |tail| && tail[j] == x;
          assert tail[j] == rows[j + 1];
        }
        var r := s + [rows[0]];
        forall a, b | 0 <= a < b < |r| ensures at(r[a]) >= at(r[b]) {
          assert r[a] == s[a] && s[a] in s;
          if b < |s| { assert r[b] == s[b]; }
        }
      }
    }
  }

  /** Each row in order mapped to zero or more results, all concatenated:
      a loop that appends what each row yields. */
  function ConcatMap<T, U>(rows: seq<T>, f: T -> seq<U>): seq<U>
    decreases |rows|
  {
    if rows == [] then [] else ConcatMap(rows[..|rows| - 1], f) + f(rows[|rows| - 1])
  }

  /** A result is produced exactly when some row yields it. */
  lemma {:induction false} ConcatMapMembers<T, U>(rows: seq<T>, f: T -> seq<U>)
    ensures forall y :: y in ConcatMap(rows, f) <==> exists x :: x in rows && y in f(x)
    decreases |rows|
  {
    if rows != [] {
      var front := rows[..|rows| - 1];
      assert forall x :: x in rows <==> x in front || x == rows[|rows| - 1];
      ConcatMapMembers(front, f);
    }
  }

  /** The results keep the order of the rows: mapping two runs of rows one
      after the other is mapping their concatenation. */
  lemma {:induction false} ConcatMapAppend<T, U>(a: seq<T>, b: seq<T>, f: T -> seq<U>)
    ensures ConcatMap(a + b, f) == ConcatMap(a, f) + ConcatMap(b, f)
    decreases |b|
  {
    if b == [] {
      assert a + b == a;
    } else {
      var ab := a + b;
      var b', last := b[..|b| - 1], b[|b| - 1];
      assert ab[..|ab| - 1] == a + b' && ab[|ab| - 1] == last;
      ConcatMapAppend(a, b', f);
    }
  }

  /** When every row yields exactly one result, the i-th result is the
      i-th row's. */
  lemma {:induction false} ConcatMapOneEach<T, U>(rows: seq<T>, f: T -> seq<U>)
    requires forall x :: x in rows ==> |f(x)| == 1
    ensures |ConcatMap(rows, f)| == |rows|
    ensures forall i :: 0 <= i < |rows| ==> ConcatMap(rows, f)[i] == f(rows[i])[0]
    decreases |rows|
  {
    if rows != [] {
      var front := rows[..|rows| - 1];
      assert forall x :: x in front ==> x in rows;
      ConcatMapOneEach(front, f);
    }
  }
  /** One row kept as itself, or dropped. */
  function KeptIf<T>(keep: T -> bool): T -> seq<T>
  {
    (x: T) => if keep(x) then [x] else []
  }

  /** The rows that pass `keep`, in table order: a loop that appends each
      row it keeps. */
  function Filter<T>(rows: seq<T>, keep: T -> bool): seq<T>
  {
    ConcatMap(rows, KeptIf(keep))
  }

  /** The filter keeps exactly the rows that pass. */
  lemma FilterMembers<T(!new)>(rows: seq<T>, keep: T -> bool)
    ensures forall x :: x in Filter(rows, keep) <==> x in rows && keep(x)
  {
    ConcatMapMembers(rows, KeptIf(keep));
    forall x | x in rows && keep(x) ensures x in Filter(rows, keep) {
      assert x in KeptIf(keep)(x);
    }
  }

  /** The filter keeps table order: filtering two runs of rows one after
      the other is filtering their concatenation. */
  lemma FilterAppend<T>(a: seq<T>, b: seq<T>, keep: T -> bool)
    ensures Filter(a + b, keep) == Filter(a, keep) + Filter(b, keep)
  {
    ConcatMapAppend(a, b, KeptIf(keep));
  }

  /** When every row passes, the filter is the table itself. */
  lemma FilterAll<T>(rows: seq<T>, keep: T -> bool)
    requires forall x :: x in rows ==> keep(x)
    ensures Filter(rows, keep) == rows
  {
    ConcatMapOneEach(rows, KeptIf(keep));
  }

  /** When no row passes, the filter is empty. */
  lemma {:induction false} FilterNone<T>(rows: seq<T>, keep: T -> bool)
    requires forall x :: x in rows ==> !keep(x)
    ensures Filter(rows, keep) == []
    decreases |rows|
  {
    if rows != [] {
      var front := rows[..|rows| - 1];
      assert forall x :: x in front ==> x in rows;
      assert rows[|rows| - 1] in rows;
      FilterNone(front, keep);
    }
  }
}
