/**
 * The `Transaction` entity: one row of the `transactions` table, and the
 * static queries the entity offers over that table (Transaction.java).
 *
 * Every query takes `rows`, the contents of the table in storage order, in
 * place of the database. Amounts are integer cents (a scale-2 decimal), dates
 * are day numbers.
 */
module TransactionEntity {
  import opened Results

  datatype TransactionType = Income | Expense

  /** A stored record; `id` is the generated primary key. */
  datatype Transaction = Transaction(
    id: int,
    userId: int,
    description: string,
    amount: int,
    kind: TransactionType,
    date: int)

  /** The WHERE clauses of the entity's list queries. */
  datatype Criteria =
    | ByUser(userId: int)
    | ByUserAndType(userId: int, kind: TransactionType)
    | ByUserAndPeriod(userId: int, startDate: int, endDate: int)

  predicate Satisfies(t: Transaction, c: Criteria) {
    match c
    case ByUser(u) => t.userId == u
    case ByUserAndType(u, k) => t.userId == u && t.kind == k
    case ByUserAndPeriod(u, lo, hi) => t.userId == u && lo <= t.date && t.date <= hi
  }

  /** The rows selected by a WHERE clause, in storage order. */
  function Where(rows: seq<Transaction>, c: Criteria): (r: seq<Transaction>)
    ensures forall t :: multiset(r)[t] == if Satisfies(t, c) then multiset(rows)[t] else 0
  {
    if rows == [] then []
    else
      assert rows == [rows[0]] + rows[1..];
      (if Satisfies(rows[0], c) then [rows[0]] else []) + Where(rows[1..], c)
  }

  /** `order by date desc`: dates never increase along the sequence. */
  ghost predicate NewestFirst(s: seq<Transaction>) {
    forall i, j :: 0 <= i < j < |s| ==> s[i].date >= s[j].date
  }

  /** Places `t` in a newest-first sequence, before the first older record. */
  function InsertByDate(t: Transaction, s: seq<Transaction>): (r: seq<Transaction>)
    requires NewestFirst(s)
    ensures NewestFirst(r)
    ensures multiset(r) == multiset(s) + multiset{t}
    ensures |r| == |s| + 1
    ensures r[0] == t || (s != [] && r[0] == s[0])
  {
    if s == [] || s[0].date <= t.date then
      ConsNewestFirst(t, s);
      [t] + s
    else
      var rest := InsertByDate(t, s[1..]);
      ConsNewestFirst(s[0], rest);
      MultisetCons(s);
      [s[0]] + rest
  }

  /** A non-empty sequence's multiset is its head plus the multiset of its tail. */
  lemma MultisetCons(s: seq<Transaction>)
    requires s != []
    ensures multiset(s) == multiset{s[0]} + multiset(s[1..])
  {
    assert s == [s[0]] + s[1..];
  }

  /** A record no older than the head of a newest-first sequence may go in front. */
  lemma ConsNewestFirst(x: Transaction, s: seq<Transaction>)
    requires NewestFirst(s)
    requires s != [] ==> x.date >= s[0].date
    ensures NewestFirst([x] + s)
  {
    forall i, j | 0 <= i < j < |[x] + s|
      ensures ([x] + s)[i].date >= ([x] + s)[j].date
    {
      if i == 0 && j > 1 {
        assert s[0].date >= s[j - 1].date;
      }
    }
  }

  /**
   * The ordering the database applies. It is one admissible ordering: the
   * source fixes no order among records of the same date, and no contract
   * here promises one.
   */
  function OrderByDateDesc(s: seq<Transaction>): (r: seq<Transaction>)
    ensures NewestFirst(r)
    ensures multiset(r) == multiset(s)
  {
    if s == [] then []
    else
      MultisetCons(s);
      InsertByDate(s[0], OrderByDateDesc(s[1..]))
  }

  /** `findByUserId`: the user's records, each as often as stored, newest first. */
  function FindByUserId(rows: seq<Transaction>, userId: int): (r: seq<Transaction>)
    ensures forall t :: multiset(r)[t] == if t.userId == userId then multiset(rows)[t] else 0
    ensures NewestFirst(r)
  {
    OrderByDateDesc(Where(rows, ByUser(userId)))
  }

  /** `findByUserIdAndType`. */
  function FindByUserIdAndType(rows: seq<Transaction>, userId: int, kind: TransactionType): (r: seq<Transaction>)
    ensures forall t ::
              multiset(r)[t] == if t.userId == userId && t.kind == kind then multiset(rows)[t] else 0
    ensures NewestFirst(r)
  {
    OrderByDateDesc(Where(rows, ByUserAndType(userId, kind)))
  }

  /** `findByUserIdAndPeriod`: both bounds are inclusive. */
  function FindByUserIdAndPeriod(rows: seq<Transaction>, userId: int, startDate: int, endDate: int)
    : (r: seq<Transaction>)
    ensures forall t ::
              multiset(r)[t] == if t.userId == userId && startDate <= t.date <= endDate then multiset(rows)[t] else 0
    ensures NewestFirst(r)
  {
    OrderByDateDesc(Where(rows, ByUserAndPeriod(userId, startDate, endDate)))
  }

  /** `findByIdAndUserId`: the first row matching both id and owner, if any. */
  function FindByIdAndUserId(rows: seq<Transaction>, id: int, userId: int): (r: Option<Transaction>)
    ensures r.Some? ==> r.value in rows && r.value.id == id && r.value.userId == userId
    ensures r.None? <==> forall t :: t in rows ==> !(t.id == id && t.userId == userId)
  {
    if rows == [] then None
    else if rows[0].id == id && rows[0].userId == userId then Some(rows[0])
    else FindByIdAndUserId(rows[1..], id, userId)
  }

  /** `countByUserId`: the number of rows the user owns. */
  function CountByUserId(rows: seq<Transaction>, userId: int): (n: nat)
    ensures n == |Where(rows, ByUser(userId))|
    ensures n == 0 <==> forall t :: t in rows ==> t.userId != userId
  {
    if rows == [] then 0
    else (if rows[0].userId == userId then 1 else 0) + CountByUserId(rows[1..], userId)
  }

  // ---------------------------------------------------------------------
  // Sums. `SumBy` adds f over a sequence from left to right starting at
  // zero: the shape of the `calculateBalance` loop and of
  // `stream().map(..).reduce(ZERO, add)`.

  function SumBy(s: seq<Transaction>, f: Transaction -> int): int {
    if s == [] then 0 else SumBy(s[..|s| - 1], f) + f(s[|s| - 1])
  }

  function Amount(t: Transaction): int { t.amount }

  /** What one record contributes to the balance: INCOME adds, EXPENSE subtracts. */
  function Signed(t: Transaction): int {
    if t.kind == Income then t.amount else -t.amount
  }

  /** `calculateTotalIncome`. */
  function TotalIncome(rows: seq<Transaction>, userId: int): int {
    SumBy(FindByUserIdAndType(rows, userId, Income), Amount)
  }

  /** `calculateTotalExpense`. */
  function TotalExpense(rows: seq<Transaction>, userId: int): int {
    SumBy(FindByUserIdAndType(rows, userId, Expense), Amount)
  }

  /** `calculateBalance`: fetch the user's listing, then one pass over it. */
  method CalculateBalance(rows: seq<Transaction>, userId: int) returns (balance: int)
    ensures balance == SumBy(FindByUserId(rows, userId), Signed)
    ensures balance == TotalIncome(rows, userId) - TotalExpense(rows, userId)
  {
    var transactions := FindByUserId(rows, userId);
    balance := SignedTotal(transactions);
    BalanceIsIncomeMinusExpense(rows, userId);
  }

  /** The loop of `calculateBalance`: INCOME adds its amount, EXPENSE subtracts it. */
  method SignedTotal(transactions: seq<Transaction>) returns (balance: int)
    ensures balance == SumBy(transactions, Signed)
  {
    balance := 0;
    for i := 0 to |transactions|
      invariant balance == SumBy(transactions[..i], Signed)
    {
      var t := transactions[i];
      SumByStep(transactions, i, Signed);
      if t.kind == Income {
        balance := balance + t.amount;
      } else {
        balance := balance - t.amount;
      }
    }
    assert transactions[..|transactions|] == transactions;
  }

  // ---------------------------------------------------------------------
  // Lemmas

  /** One more element on a prefix adds its contribution. */
  lemma SumByStep(s: seq<Transaction>, i: nat, f: Transaction -> int)
    requires i < |s|
    ensures SumBy(s[..i + 1], f) == SumBy(s[..i], f) + f(s[i])
  {
    assert s[..i + 1][..i] == s[..i];
  }

  lemma {:induction false} SumByAppend(a: seq<Transaction>, b: seq<Transaction>, f: Transaction -> int)
    ensures SumBy(a + b, f) == SumBy(a, f) + SumBy(b, f)
    decreases |b|
  {
    if b == [] {
      assert a + b == a;
    } else {
      var n := |b| - 1;
      assert (a + b)[..|a + b| - 1] == a + b[..n];
      SumByAppend(a, b[..n], f);
    }
  }

  /** A sum over a sequence does not depend on the order of its elements. */
  lemma {:induction false} SumByPermutation(a: seq<Transaction>, b: seq<Transaction>, f: Transaction -> int)
    requires multiset(a) == multiset(b)
    ensures SumBy(a, f) == SumBy(b, f)
    decreases |a|
  {
    if a == [] {
      assert |b| == |multiset(b)| == 0;
    } else {
      var n := |a| - 1;
      assert a[n] in multiset(a);
      var j :| 0 <= j < |b| && b[j] == a[n];
      var rest := b[..j] + b[j + 1..];
      MultisetDropLast(a);
      MultisetRemoveAt(b, j);
      SumByPermutation(a[..n], rest, f);
      SumByRemoveAt(b, j, f);
    }
  }

  /** Taking the element at `j` out of `b` removes one copy of it from the multiset. */
  lemma MultisetRemoveAt(b: seq<Transaction>, j: nat)
    requires j < |b|
    ensures multiset(b[..j] + b[j + 1..]) == multiset(b) - multiset{b[j]}
  {
    assert b == b[..j] + [b[j]] + b[j + 1..];
    MultisetSplit(b[..j], b[j], b[j + 1..]);
  }

  /** Taking the element at `j` out of `b` removes its contribution from the sum. */
  lemma SumByRemoveAt(b: seq<Transaction>, j: nat, f: Transaction -> int)
    requires j < |b|
    ensures SumBy(b, f) == SumBy(b[..j] + b[j + 1..], f) + f(b[j])
  {
    SumByPrefix(b, j + 1, f);
    SumByStep(b, j, f);
    SumByAppend(b[..j], b[j + 1..], f);
  }

  lemma MultisetSplit(c: seq<Transaction>, x: Transaction, d: seq<Transaction>)
    ensures multiset(c + d) == multiset(c + [x] + d) - multiset{x}
  {
    assert multiset(c + [x] + d) == multiset(c) + multiset{x} + multiset(d);
  }

  /** A sum splits at any cut of its sequence. */
  lemma SumByPrefix(b: seq<Transaction>, k: nat, f: Transaction -> int)
    requires k <= |b|
    ensures SumBy(b, f) == SumBy(b[..k], f) + SumBy(b[k..], f)
  {
    assert b[..k] + b[k..] == b;
    SumByAppend(b[..k], b[k..], f);
  }

  /** Dropping the last element removes one copy of it from the multiset. */
  lemma MultisetDropLast(a: seq<Transaction>)
    requires a != []
    ensures multiset(a[..|a| - 1]) == multiset(a) - multiset{a[|a| - 1]}
  {
    assert a == a[..|a| - 1] + [a[|a| - 1]];
  }

  /** Over the rows themselves: the owner's signed sum splits by type. */
  lemma {:induction false} SignedSumSplits(rows: seq<Transaction>, userId: int)
    ensures SumBy(Where(rows, ByUser(userId)), Signed) ==
      SumBy(Where(rows, ByUserAndType(userId, Income)), Amount)
      - SumBy(Where(rows, ByUserAndType(userId, Expense)), Amount)
  {
    if rows != [] {
      var t := rows[0];
      SignedSumSplits(rows[1..], userId);
      var own := if Satisfies(t, ByUser(userId)) then [t] else [];
      var inc := if Satisfies(t, ByUserAndType(userId, Income)) then [t] else [];
      var exp := if Satisfies(t, ByUserAndType(userId, Expense)) then [t] else [];
      SumByAppend(own, Where(rows[1..], ByUser(userId)), Signed);
      SumByAppend(inc, Where(rows[1..], ByUserAndType(userId, Income)), Amount);
      SumByAppend(exp, Where(rows[1..], ByUserAndType(userId, Expense)), Amount);
      assert [t][..0] == [];
    }
  }

  /** balance = total income - total expense, for every user. */
  lemma BalanceIsIncomeMinusExpense(rows: seq<Transaction>, userId: int)
    ensures SumBy(FindByUserId(rows, userId), Signed) == TotalIncome(rows, userId) - TotalExpense(rows, userId)
  {
    var own := Where(rows, ByUser(userId));
    var inc := Where(rows, ByUserAndType(userId, Income));
    var exp := Where(rows, ByUserAndType(userId, Expense));
    SumByPermutation(FindByUserId(rows, userId), own, Signed);
    SumByPermutation(FindByUserIdAndType(rows, userId, Income), inc, Amount);
    SumByPermutation(FindByUserIdAndType(rows, userId, Expense), exp, Amount);
    SignedSumSplits(rows, userId);
  }

  /** A user who owns no row has an empty listing and zero totals and balance. */
  lemma NoTransactionsMeansZero(rows: seq<Transaction>, userId: int)
    requires forall t :: t in rows ==> t.userId != userId
    ensures FindByUserId(rows, userId) == []
    ensures SumBy(FindByUserId(rows, userId), Signed) == 0
    ensures TotalIncome(rows, userId) == 0 && TotalExpense(rows, userId) == 0
    ensures CountByUserId(rows, userId) == 0
  {
    EmptyListing(FindByUserId(rows, userId));
    EmptyListing(FindByUserIdAndType(rows, userId, Income));
    EmptyListing(FindByUserIdAndType(rows, userId, Expense));
  }

  lemma EmptyListing(r: seq<Transaction>)
    requires forall t :: multiset(r)[t] == 0
    ensures r == []
  {
    assert multiset(r) == multiset{};
    assert |r| == |multiset(r)| == 0;
  }

  /** `countByUserId` is the length of `findByUserId`. */
  lemma CountIsListingLength(rows: seq<Transaction>, userId: int)
    ensures CountByUserId(rows, userId) == |FindByUserId(rows, userId)|
  {
    var w := Where(rows, ByUser(userId));
    assert |FindByUserId(rows, userId)| == |multiset(OrderByDateDesc(w))| == |multiset(w)| == |w|;
  }

  /** A record is in the user's listing exactly when it is a row the user owns. */
  lemma ListingMembership(rows: seq<Transaction>, userId: int)
    ensures forall t :: t in FindByUserId(rows, userId) <==> t in rows && t.userId == userId
  {
    var r := FindByUserId(rows, userId);
    forall t ensures t in r <==> t in rows && t.userId == userId {
      assert t in r <==> t in multiset(r);
      assert t in rows <==> t in multiset(rows);
    }
  }

  /**
   * Every record of the period listing is a row of the user dated within the
   * period, both ends included, and every such row is listed.
   */
  lemma PeriodListingMembership(rows: seq<Transaction>, userId: int, startDate: int, endDate: int)
    ensures forall t :: t in FindByUserIdAndPeriod(rows, userId, startDate, endDate) <==>
                        t in rows && t.userId == userId && startDate <= t.date <= endDate
  {
    var r := FindByUserIdAndPeriod(rows, userId, startDate, endDate);
    forall t ensures t in r <==> t in rows && t.userId == userId && startDate <= t.date <= endDate {
      assert t in r <==> t in multiset(r);
      assert t in rows <==> t in multiset(rows);
    }
  }

  /**
   * The INCOME listing and the EXPENSE listing partition the user's listing:
   * together they hold each of the user's records exactly as often as it
   * does, and no record is in both.
   */
  lemma TypeListingsPartition(rows: seq<Transaction>, userId: int)
    ensures multiset(FindByUserIdAndType(rows, userId, Income))
      + multiset(FindByUserIdAndType(rows, userId, Expense))
      == multiset(FindByUserId(rows, userId))
    ensures multiset(FindByUserIdAndType(rows, userId, Income))
      !! multiset(FindByUserIdAndType(rows, userId, Expense))
  {
    PartitionByKind(FindByUserIdAndType(rows, userId, Income), FindByUserIdAndType(rows, userId, Expense),
      FindByUserId(rows, userId), rows, userId);
  }

  lemma PartitionByKind(inc: seq<Transaction>, exp: seq<Transaction>, all: seq<Transaction>,
                        rows: seq<Transaction>, userId: int)
    requires forall t ::
               multiset(inc)[t] == if t.userId == userId && t.kind == Income then multiset(rows)[t] else 0
    requires forall t ::
               multiset(exp)[t] == if t.userId == userId && t.kind == Expense then multiset(rows)[t] else 0
    requires forall t :: multiset(all)[t] == if t.userId == userId then multiset(rows)[t] else 0
    ensures multiset(inc) + multiset(exp) == multiset(all)
    ensures multiset(inc) !! multiset(exp)
  {
    assert forall t :: (multiset(inc) + multiset(exp))[t] == multiset(all)[t];
  }
}
