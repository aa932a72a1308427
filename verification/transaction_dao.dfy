/** `TransactionEntity` and an in-memory reference model of the SQL behind `TransactionDao`.
    Rows are kept in insertion order; queries filter, order and aggregate them as the
    annotated statements do. Amounts are paise. */
module TransactionDao {
  import opened Wrappers

  /** One row of the `transactions` table. An `id` of 0 asks for an auto-generated key. */
  datatype TransactionEntity = TransactionEntity(
    id: int,
    amount: nat,
    appPackage: string,
    senderName: string,
    timestamp: int,
    rawMessage: string)

  /** The table and the AUTOINCREMENT counter (the largest key ever handed out, never reused,
      and left alone by `DELETE FROM transactions`). */
  datatype Store = Store(rows: seq<TransactionEntity>, lastId: int)

  datatype DaoError = PrimaryKeyConflict

  function Empty(): Store {
    Store([], 0)
  }

  /** Keys are unique and non-zero, and none exceeds the counter. */
  predicate Valid(s: Store) {
    && s.lastId >= 0
    && (forall x :: x in s.rows ==> x.id != 0 && x.id <= s.lastId)
    && DistinctIds(s.rows)
  }

  predicate HasId(rows: seq<TransactionEntity>, id: int) {
    exists i :: 0 <= i < |rows| && rows[i].id == id
  }

  /** No two rows share a key. */
  predicate DistinctIds(rows: seq<TransactionEntity>) {
    |rows| == 0 || (!HasId(rows[1..], rows[0].id) && DistinctIds(rows[1..]))
  }

  lemma {:induction false} DistinctIdsAt(rows: seq<TransactionEntity>, i: nat, j: nat)
    requires DistinctIds(rows) && i < j < |rows|
    ensures rows[i].id != rows[j].id
  {
    if i == 0 {
      assert rows[j] == rows[1..][j - 1];
    } else {
      DistinctIdsAt(rows[1..], i - 1, j - 1);
    }
  }

  lemma {:induction false} DistinctIdsAppend(rows: seq<TransactionEntity>, x: TransactionEntity)
    requires DistinctIds(rows) && !HasId(rows, x.id)
    ensures DistinctIds(rows + [x])
  {
    if |rows| > 0 {
      assert (rows + [x])[1..] == rows[1..] + [x];
      forall i | 0 <= i < |rows[1..]| ensures rows[1..][i].id != x.id {
        assert rows[1..][i] == rows[i + 1];
      }
      DistinctIdsAppend(rows[1..], x);
      forall i | 0 <= i < |rows[1..] + [x]| ensures (rows[1..] + [x])[i].id != rows[0].id {
        if i == |rows[1..]| {
          assert rows[0].id != x.id;
        }
      }
    }
  }

  // ---------------------------------------------------------------- writes

  /** `@Insert` with the default ABORT conflict strategy: an `id` of 0 receives the next key;
      an explicit key that is already taken fails. */
  function Insert(s: Store, e: TransactionEntity): (r: Result<Store, DaoError>)
    requires Valid(s)
    ensures r.Success? ==> Valid(r.value)
    ensures r.Success? ==> |r.value.rows| == |s.rows| + 1 && r.value.rows[..|s.rows|] == s.rows
    ensures r.Success? ==> var added := r.value.rows[|s.rows|];
      && added == e.(id := added.id)
      && !HasId(s.rows, added.id)
      && (e.id != 0 ==> added.id == e.id)
    ensures r.Failure? <==> e.id != 0 && HasId(s.rows, e.id)
  {
    if e.id == 0 then
      var id := s.lastId + 1;
      var added := e.(id := id);
      assert !HasId(s.rows, id) by {
        forall i | 0 <= i < |s.rows| ensures s.rows[i].id != id {
          assert s.rows[i] in s.rows;
        }
      }
      DistinctIdsAppend(s.rows, added);
      assert (s.rows + [added])[..|s.rows|] == s.rows;
      Success(Store(s.rows + [added], id))
    else if HasId(s.rows, e.id) then
      Failure(PrimaryKeyConflict)
    else
      DistinctIdsAppend(s.rows, e);
      assert (s.rows + [e])[..|s.rows|] == s.rows;
      Success(Store(s.rows + [e], if e.id > s.lastId then e.id else s.lastId))
  }

  /** The rows whose key differs from `id`, in their original order. */
  function WithoutId(rows: seq<TransactionEntity>, id: int): (r: seq<TransactionEntity>)
    ensures !HasId(r, id)
    ensures forall x :: x in rows && x.id != id ==> x in r
    ensures forall x :: x in r ==> x in rows
    ensures DistinctIds(rows) ==> DistinctIds(r)
  {
    if |rows| == 0 then []
    else
      var tail := WithoutId(rows[1..], id);
      assert rows == [rows[0]] + rows[1..];
      if rows[0].id == id then tail
      else
        assert ([rows[0]] + tail)[1..] == tail;
        assert DistinctIds(rows) ==> !HasId(tail, rows[0].id) by {
          if DistinctIds(rows) {
            forall i | 0 <= i < |tail| ensures tail[i].id != rows[0].id {
              assert tail[i] in rows[1..];
            }
          }
        }
        [rows[0]] + tail
  }

  /** `@Delete`: removes the row with the entity's primary key, if there is one. */
  function Delete(s: Store, e: TransactionEntity): (r: Store)
    requires Valid(s)
    ensures Valid(r)
    ensures r.lastId == s.lastId
    ensures !HasId(r.rows, e.id)
    ensures forall x :: x in s.rows && x.id != e.id ==> x in r.rows
    ensures forall x :: x in r.rows ==> x in s.rows
  {
    Store(WithoutId(s.rows, e.id), s.lastId)
  }

  /** `DELETE FROM transactions`. */
  function DeleteAll(s: Store): (r: Store)
    requires Valid(s)
    ensures Valid(r) && |r.rows| == 0 && r.lastId == s.lastId
  {
    Store([], s.lastId)
  }

  // ---------------------------------------------------------------- ordering

  /** `a` may precede `b` in `ORDER BY timestamp ASC` (or `DESC` when `desc` holds). */
  predicate InOrder(a: TransactionEntity, b: TransactionEntity, desc: bool) {
    if desc then a.timestamp >= b.timestamp else a.timestamp <= b.timestamp
  }

  predicate Sorted(xs: seq<TransactionEntity>, desc: bool) {
    forall i, j :: 0 <= i < j < |xs| ==> InOrder(xs[i], xs[j], desc)
  }

  function Sum(xs: seq<TransactionEntity>): nat {
    if |xs| == 0 then 0 else xs[0].amount + Sum(xs[1..])
  }

  /** Places `x` before the first element it may precede. */
  function InsertSorted(x: TransactionEntity, ys: seq<TransactionEntity>, desc: bool): (r: seq<TransactionEntity>)
    requires Sorted(ys, desc)
    ensures Sorted(r, desc)
    ensures |r| == |ys| + 1
    ensures forall z :: z in r <==> z == x || z in ys
  {
    if |ys| == 0 then [x]
    else if InOrder(x, ys[0], desc) then [x] + ys
    else
      var rest := InsertSorted(x, ys[1..], desc);
      assert forall k :: 0 <= k < |rest| ==> InOrder(ys[0], rest[k], desc) by {
        forall k | 0 <= k < |rest| ensures InOrder(ys[0], rest[k], desc) {
          assert rest[k] in rest;
          if rest[k] != x {
            var m :| 0 <= m < |ys[1..]| && ys[1..][m] == rest[k];
            assert ys[m + 1] == rest[k];
          }
        }
      }
      assert forall z :: z in ys <==> z == ys[0] || z in ys[1..] by {
        assert ys == [ys[0]] + ys[1..];
      }
      [ys[0]] + rest
  }

  lemma {:induction false} InsertSortedPermutes(x: TransactionEntity, ys: seq<TransactionEntity>, desc: bool)
    requires Sorted(ys, desc)
    ensures multiset(InsertSorted(x, ys, desc)) == multiset(ys) + multiset{x}
    ensures Sum(InsertSorted(x, ys, desc)) == x.amount + Sum(ys)
  {
    if |ys| > 0 && !InOrder(x, ys[0], desc) {
      InsertSortedPermutes(x, ys[1..], desc);
      assert ys == [ys[0]] + ys[1..];
      assert ([ys[0]] + InsertSorted(x, ys[1..], desc))[1..] == InsertSorted(x, ys[1..], desc);
    } else if |ys| > 0 {
      assert ([x] + ys)[1..] == ys;
    }
  }

  /** Insertion sort on the timestamp; it keeps rows with equal timestamps in the order
      given, one of the orders the SQL statement allows. */
  function SortByTimestamp(xs: seq<TransactionEntity>, desc: bool): (r: seq<TransactionEntity>)
    ensures Sorted(r, desc)
    ensures |r| == |xs|
  {
    if |xs| == 0 then [] else InsertSorted(xs[0], SortByTimestamp(xs[1..], desc), desc)
  }

  /** Sorting rearranges the rows: same rows, same multiplicities, same total. */
  lemma {:induction false} SortPermutes(xs: seq<TransactionEntity>, desc: bool)
    ensures multiset(SortByTimestamp(xs, desc)) == multiset(xs)
    ensures Sum(SortByTimestamp(xs, desc)) == Sum(xs)
  {
    if |xs| > 0 {
      SortPermutes(xs[1..], desc);
      InsertSortedPermutes(xs[0], SortByTimestamp(xs[1..], desc), desc);
      assert xs == [xs[0]] + xs[1..];
    }
  }

  // ---------------------------------------------------------------- queries

  /** `WHERE timestamp >= :startTime AND timestamp < :endTime`. */
  predicate InRange(e: TransactionEntity, startTime: int, endTime: int) {
    startTime <= e.timestamp < endTime
  }

  function Filter(rows: seq<TransactionEntity>, startTime: int, endTime: int): (r: seq<TransactionEntity>)
    ensures forall x :: x in r <==> x in rows && InRange(x, startTime, endTime)
  {
    if |rows| == 0 then []
    else
      assert rows == [rows[0]] + rows[1..];
      (if InRange(rows[0], startTime, endTime) then [rows[0]] else []) + Filter(rows[1..], startTime, endTime)
  }

  /** Filtering keeps each row in range with its multiplicity and drops every other row. */
  lemma {:induction false} FilterCounts(rows: seq<TransactionEntity>, startTime: int, endTime: int)
    ensures forall x ::
              multiset(Filter(rows, startTime, endTime))[x] == if InRange(x, startTime, endTime) then multiset(rows)[x] else 0
  {
    if |rows| > 0 {
      FilterCounts(rows[1..], startTime, endTime);
      assert rows == [rows[0]] + rows[1..];
    }
  }

  /** `getTransactionsInRange`: the rows in the half-open range, oldest first. */
  function GetTransactionsInRange(s: Store, startTime: int, endTime: int): (r: seq<TransactionEntity>)
    ensures Sorted(r, false)
    ensures forall x :: multiset(r)[x] == if InRange(x, startTime, endTime) then multiset(s.rows)[x] else 0
  {
    var f := Filter(s.rows, startTime, endTime);
    FilterCounts(s.rows, startTime, endTime);
    SortPermutes(f, false);
    SortByTimestamp(f, false)
  }

  /** `getCountInRange`. */
  function GetCountInRange(s: Store, startTime: int, endTime: int): (n: nat)
    ensures n == |GetTransactionsInRange(s, startTime, endTime)|
  {
    |Filter(s.rows, startTime, endTime)|
  }

  /** `getTotalAmountInRange`: SQL `SUM` is NULL over no rows. */
  function GetTotalAmountInRange(s: Store, startTime: int, endTime: int): (r: Option<nat>)
    ensures r.None? <==> GetTransactionsInRange(s, startTime, endTime) == []
    ensures r.Some? ==> r.value == Sum(GetTransactionsInRange(s, startTime, endTime))
  {
    var f := Filter(s.rows, startTime, endTime);
    SortPermutes(f, false);
    if |f| == 0 then None else Some(Sum(f))
  }

  const RecentLimit := 50

  /** `getRecentTransactions`: at most 50 rows, newest first. */
  function GetRecentTransactions(s: Store): (r: seq<TransactionEntity>)
    ensures |r| == if |s.rows| < RecentLimit then |s.rows| else RecentLimit
    ensures Sorted(r, true)
  {
    var sorted := SortByTimestamp(s.rows, true);
    sorted[..if |sorted| < RecentLimit then |sorted| else RecentLimit]
  }

  // ---------------------------------------------------------------- properties

  /** In a list sorted newest first, nothing after position `k` is newer than anything before it. */
  lemma SortedSplit(xs: seq<TransactionEntity>, k: nat)
    requires Sorted(xs, true) && k <= |xs|
    ensures forall x, y :: x in xs[..k] && y in xs[k..] ==> y.timestamp <= x.timestamp
  {
    forall x, y | x in xs[..k] && y in xs[k..] ensures y.timestamp <= x.timestamp {
      var i :| 0 <= i < k && xs[..k][i] == x;
      var j :| 0 <= j < |xs[k..]| && xs[k..][j] == y;
      assert xs[i] == x && xs[k + j] == y;
    }
  }

  /** The recent list is drawn from the table, and no row it leaves out is newer than a
      row it shows. */
  lemma RecentAreNewest(s: Store)
    ensures multiset(GetRecentTransactions(s)) <= multiset(s.rows)
    ensures forall x, y ::
              x in GetRecentTransactions(s) && y in multiset(s.rows) - multiset(GetRecentTransactions(s)) ==> y.timestamp <= x.timestamp
  {
    var sorted := SortByTimestamp(s.rows, true);
    SortPermutes(s.rows, true);
    var r := GetRecentTransactions(s);
    var k := |r|;
    assert r == sorted[..k];
    PrefixAndRest(sorted, k);
    SortedSplit(sorted, k);
  }

  /** A prefix and the rest of a sequence split its multiset. */
  lemma PrefixAndRest(xs: seq<TransactionEntity>, k: nat)
    requires k <= |xs|
    ensures multiset(xs[..k]) <= multiset(xs)
    ensures multiset(xs) - multiset(xs[..k]) == multiset(xs[k..])
  {
    assert xs == xs[..k] + xs[k..];
  }

  /** After `deleteAll` every list is empty, every count 0 and every total absent. */
  lemma DeleteAllEmpties(s: Store, startTime: int, endTime: int)
    requires Valid(s)
    ensures GetTransactionsInRange(DeleteAll(s), startTime, endTime) == []
    ensures GetCountInRange(DeleteAll(s), startTime, endTime) == 0
    ensures GetTotalAmountInRange(DeleteAll(s), startTime, endTime).None?
    ensures GetRecentTransactions(DeleteAll(s)) == []
  {
  }

  /** An empty or inverted range selects nothing. */
  lemma EmptyRange(s: Store, startTime: int, endTime: int)
    requires endTime <= startTime
    ensures GetTransactionsInRange(s, startTime, endTime) == []
    ensures GetTotalAmountInRange(s, startTime, endTime).None?
  {
    assert multiset(GetTransactionsInRange(s, startTime, endTime)) == multiset{};
  }

  /** Deleting the row an insert just added gives back the table as it was. */
  lemma InsertThenDelete(s: Store, e: TransactionEntity)
    requires Valid(s) && Insert(s, e).Success?
    ensures var s' := Insert(s, e).value;
      Delete(s', s'.rows[|s.rows|]).rows == s.rows
  {
    var s' := Insert(s, e).value;
    var added := s'.rows[|s.rows|];
    assert s'.rows == s.rows + [added];
    WithoutIdAppend(s.rows, added);
  }

  lemma {:induction false} WithoutIdAppend(rows: seq<TransactionEntity>, x: TransactionEntity)
    requires !HasId(rows, x.id)
    ensures WithoutId(rows + [x], x.id) == rows
  {
    if |rows| == 0 {
      assert WithoutId([x], x.id) == WithoutId([x][1..], x.id);
    } else {
      var tail := rows[1..];
      WithoutIdStep(rows, x);
      HasIdTail(rows, x.id);
      WithoutIdAppend(tail, x);
      assert rows == [rows[0]] + tail;
    }
  }

  lemma WithoutIdStep(rows: seq<TransactionEntity>, x: TransactionEntity)
    requires |rows| > 0 && rows[0].id != x.id
    ensures WithoutId(rows + [x], x.id) == [rows[0]] + WithoutId(rows[1..] + [x], x.id)
  {
    var ys := rows + [x];
    assert ys[0] == rows[0];
    assert ys[1..] == rows[1..] + [x];
    assert WithoutId(ys, x.id) == [ys[0]] + WithoutId(ys[1..], x.id);
  }

  lemma HasIdTail(rows: seq<TransactionEntity>, id: int)
    requires |rows| > 0 && !HasId(rows, id)
    ensures rows[0].id != id && !HasId(rows[1..], id)
  {
    forall i | 0 <= i < |rows[1..]| ensures rows[1..][i].id != id {
      assert rows[1..][i] == rows[i + 1];
    }
  }

  /** Inserting into a range adds the row to exactly the ranges containing its timestamp. */
  lemma InsertShowsInRange(s: Store, e: TransactionEntity, startTime: int, endTime: int)
    requires Valid(s) && Insert(s, e).Success?
    ensures var s' := Insert(s, e).value;
      var added := s'.rows[|s.rows|];
      multiset(GetTransactionsInRange(s', startTime, endTime)) ==
        multiset(GetTransactionsInRange(s, startTime, endTime)) +
        (if InRange(added, startTime, endTime) then multiset{added} else multiset{})
  {
    var s' := Insert(s, e).value;
    RangeAfterAppend(s, s', s'.rows[|s.rows|], startTime, endTime);
  }

  lemma RangeAfterAppend(s: Store, s': Store, added: TransactionEntity, startTime: int, endTime: int)
    requires s'.rows == s.rows + [added]
    ensures multiset(GetTransactionsInRange(s', startTime, endTime)) ==
      multiset(GetTransactionsInRange(s, startTime, endTime)) +
      (if InRange(added, startTime, endTime) then multiset{added} else multiset{})
  {
    var before := GetTransactionsInRange(s, startTime, endTime);
    var after := GetTransactionsInRange(s', startTime, endTime);
    var extra := if InRange(added, startTime, endTime) then multiset{added} else multiset{};
    var all := multiset(s'.rows);
    assert all == multiset(s.rows) + multiset{added};
    forall x ensures multiset(after)[x] == (multiset(before) + extra)[x] {
      assert multiset(after)[x] == if InRange(x, startTime, endTime) then all[x] else 0;
      assert multiset(before)[x] == if InRange(x, startTime, endTime) then multiset(s.rows)[x] else 0;
      assert all[x] == multiset(s.rows)[x] + multiset{added}[x];
    }
    assert multiset(after) == multiset(before) + extra;
  }

  /** A row removed from the table disappears from every range query. */
  lemma DeletedRowNotListed(s: Store, e: TransactionEntity, startTime: int, endTime: int)
    requires Valid(s)
    ensures forall x :: x in GetTransactionsInRange(Delete(s, e), startTime, endTime) ==> x.id != e.id
  {
    var r := GetTransactionsInRange(Delete(s, e), startTime, endTime);
    forall x | x in r ensures x.id != e.id {
      assert multiset(r)[x] > 0;
      var i :| 0 <= i < |Delete(s, e).rows| && Delete(s, e).rows[i] == x;
    }
  }
}
