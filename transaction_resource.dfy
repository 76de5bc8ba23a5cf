/**
 * The REST handlers of the transaction service (TransactionResource.java)
 * over an in-memory `transactions` table.
 *
 * The caller's user id, which the service reads from the `userId` claim of
 * the bearer token, is a parameter of every handler, and so is "today", the
 * server clock's date that `create` falls back on.
 */
module TransactionResource {
  import opened Results
  import opened JavaStrings
  import opened TransactionEntity

  /** The request body of `create` and `update`; an absent field is None. */
  datatype TransactionRequest = TransactionRequest(
    description: Option<string>,
    amount: Option<int>,
    kind: Option<TransactionType>,
    date: Option<int>)

  /** The response of `getBalance`; the optional parts are the fields left null. */
  datatype BalanceResponse = BalanceResponse(
    balance: int,
    totalIncome: Option<int>,
    totalExpense: Option<int>,
    userId: int,
    transactionCount: Option<int>)

  /** The reasons carried by the service's error responses. */
  datatype LedgerError =
    | DescriptionRequired
    | AmountNotPositive
    | TypeRequired
    | TransactionNotFound

  const EmptyRequest := TransactionRequest(None, None, None, None)

  // The three checks of `create`, in the order the handler makes them.

  predicate HasDescription(request: TransactionRequest) {
    request.description.Some? && !IsBlank(request.description.value)
  }

  predicate HasPositiveAmount(request: TransactionRequest) {
    request.amount.Some? && request.amount.value > 0
  }

  predicate HasType(request: TransactionRequest) {
    request.kind.Some?
  }

  /**
   * What `update` makes of a record: each supplied field replaces the stored
   * one exactly as given (nothing is validated again), each absent field is
   * kept, and the id and the owner never change.
   */
  function Patched(t: Transaction, request: TransactionRequest): (r: Transaction)
    ensures r.id == t.id && r.userId == t.userId
    ensures request.description.Some? ==> r.description == request.description.value
    ensures request.description.None? ==> r.description == t.description
    ensures request.amount.Some? ==> r.amount == request.amount.value
    ensures request.amount.None? ==> r.amount == t.amount
    ensures request.kind.Some? ==> r.kind == request.kind.value
    ensures request.kind.None? ==> r.kind == t.kind
    ensures request.date.Some? ==> r.date == request.date.value
    ensures request.date.None? ==> r.date == t.date
    ensures request == EmptyRequest ==> r == t
  {
    t.(description := if request.description.Some? then request.description.value else t.description,
       amount := if request.amount.Some? then request.amount.value else t.amount,
       kind := if request.kind.Some? then request.kind.value else t.kind,
       date := if request.date.Some? then request.date.value else t.date)
  }

  /** Applying the same partial update twice is applying it once. */
  lemma PatchIsIdempotent(t: Transaction, request: TransactionRequest)
    ensures Patched(Patched(t, request), request) == Patched(t, request)
  {
  }

  /** `update` stores a supplied amount as given, a non-positive one included. */
  lemma PatchKeepsNonPositiveAmount(t: Transaction, amount: int)
    requires amount <= 0
    ensures Patched(t, EmptyRequest.(amount := Some(amount))).amount == amount
  {
  }

  /** Every record is filed under its own id. */
  ghost predicate WellKeyed(table: map<int, Transaction>) {
    forall id :: id in table ==> table[id].id == id
  }

  /**
   * The rows with ids in [lo, hi), in id order: a scan of the table. Every
   * stored record with an id in range occurs exactly once, nothing else occurs.
   */
  function Scan(table: map<int, Transaction>, lo: int, hi: int): (r: seq<Transaction>)
    requires WellKeyed(table)
    ensures forall t :: multiset(r)[t] == if lo <= t.id < hi && t.id in table && table[t.id] == t then 1 else 0
    decreases hi - lo
  {
    if lo >= hi then []
    else (if lo in table then [table[lo]] else []) + Scan(table, lo + 1, hi)
  }

  /** The `transactions` table with its id generator. */
  class Ledger {
    var table: map<int, Transaction>
    var nextId: int

    /** Records are keyed by their ids, and every id was drawn from the generator. */
    ghost predicate Valid()
      reads this
    {
      && 1 <= nextId
      && WellKeyed(table)
      && (forall id :: id in table ==> 1 <= id < nextId)
    }

    constructor ()
      ensures Valid()
      ensures table == map[] && nextId == 1
    {
      table := map[];
      nextId := 1;
    }

    /** The table as the entity's queries see it: each stored record once. */
    function Rows(): (r: seq<Transaction>)
      reads this
      requires Valid()
      ensures forall t :: multiset(r)[t] == if t.id in table && table[t.id] == t then 1 else 0
    {
      Scan(table, 1, nextId)
    }

    /** The record `id` exists and belongs to `userId`. */
    ghost predicate Owns(userId: int, id: int)
      reads this
    {
      id in table && table[id].userId == userId
    }

    /** `findByIdAndUserId` over the table is a lookup guarded by ownership. */
    lemma FindByIdIsOwnedLookup(id: int, userId: int)
      requires Valid()
      ensures FindByIdAndUserId(Rows(), id, userId) == if Owns(userId, id) then Some(table[id]) else None
    {
      var rows := Rows();
      var found := FindByIdAndUserId(rows, id, userId);
      if found.Some? {
        assert found.value in multiset(rows);
      }
    }

    lemma RowsOfTwo(s: Transaction, r: Transaction)
      requires Valid() && table == map[1 := s, 2 := r] && nextId == 3
      ensures Rows() == [s, r]
    {
      assert Scan(table, 3, 3) == [];
      assert Scan(table, 2, 3) == [r];
    }

    /** POST /transactions */
    method Create(userId: int, request: TransactionRequest, today: int)
      returns (response: Outcome<Transaction, LedgerError>)
      requires Valid()
      modifies this
      ensures Valid()
      ensures !HasDescription(request) ==> response == BadRequest(DescriptionRequired)
      ensures HasDescription(request) && !HasPositiveAmount(request) ==> response == BadRequest(AmountNotPositive)
      ensures HasDescription(request) && HasPositiveAmount(request) && !HasType(request)
              ==> response == BadRequest(TypeRequired)
      ensures response.Ok? <==> HasDescription(request) && HasPositiveAmount(request) && HasType(request)
      ensures !response.Ok? ==> table == old(table) && nextId == old(nextId)
      ensures response.Ok? ==>
                && response.value == Transaction(old(nextId), userId, request.description.value, request.amount.value,
                                                 request.kind.value,
                                                 if request.date.Some? then request.date.value else today)
                && response.value.id !in old(table)
                && table == old(table)[response.value.id := response.value]
                && nextId == old(nextId) + 1
    {
      if request.description.None? || IsBlank(request.description.value) {
        return BadRequest(DescriptionRequired);
      }
      if request.amount.None? || request.amount.value <= 0 {
        return BadRequest(AmountNotPositive);
      }
      if request.kind.None? {
        return BadRequest(TypeRequired);
      }
      var t := Transaction(nextId, userId, request.description.value, request.amount.value, request.kind.value,
                           if request.date.Some? then request.date.value else today);
      table := table[nextId := t];
      nextId := nextId + 1;
      response := Ok(t);
    }

    /**
     * GET /transactions: exactly the caller's records, each once, dates never
     * increasing.
     */
    method List(userId: int) returns (transactions: seq<Transaction>)
      requires Valid()
      ensures forall t :: t in transactions <==> t.id in table && table[t.id] == t && t.userId == userId
      ensures forall t :: multiset(transactions)[t] == if t.id in table && table[t.id] == t && t.userId == userId then 1 else 0
      ensures forall i, j :: 0 <= i < j < |transactions| ==> transactions[i].date >= transactions[j].date
    {
      transactions := FindByUserId(Rows(), userId);
      ListingMembership(Rows(), userId);
    }

    /** GET /transactions/{id}: an absent record and another user's record look the same. */
    method GetById(userId: int, id: int) returns (response: Outcome<Transaction, LedgerError>)
      requires Valid()
      ensures Owns(userId, id) ==> response == Ok(table[id])
      ensures !Owns(userId, id) ==> response == NotFound(TransactionNotFound)
    {
      var found := FindByIdAndUserId(Rows(), id, userId);
      FindByIdIsOwnedLookup(id, userId);
      if found.None? {
        return NotFound(TransactionNotFound);
      }
      response := Ok(found.value);
    }

    /** PUT /transactions/{id}: only the supplied fields of the caller's record change. */
    method Update(userId: int, id: int, request: TransactionRequest)
      returns (response: Outcome<Transaction, LedgerError>)
      requires Valid()
      modifies this
      ensures Valid()
      ensures nextId == old(nextId)
      ensures old(Owns(userId, id)) ==>
                && response == Ok(Patched(old(table[id]), request))
                && table == old(table)[id := Patched(old(table[id]), request)]
      ensures !old(Owns(userId, id)) ==> response == NotFound(TransactionNotFound) && table == old(table)
      ensures forall k :: k in old(table) && old(table[k]).userId != userId ==> k in table && table[k] == old(table[k])
    {
      var found := FindByIdAndUserId(Rows(), id, userId);
      FindByIdIsOwnedLookup(id, userId);
      if found.None? {
        return NotFound(TransactionNotFound);
      }
      var t := Patched(found.value, request);
      table := table[id := t];
      response := Ok(t);
    }

    /** DELETE /transactions/{id}: removes exactly the caller's record `id`. */
    method Delete(userId: int, id: int) returns (response: Outcome<(), LedgerError>)
      requires Valid()
      modifies this
      ensures Valid()
      ensures nextId == old(nextId)
      ensures old(Owns(userId, id)) ==> response == Ok(()) && table == old(table) - {id}
      ensures !old(Owns(userId, id)) ==> response == NotFound(TransactionNotFound) && table == old(table)
      ensures forall k :: k in old(table) && old(table[k]).userId != userId ==> k in table && table[k] == old(table[k])
    {
      var found := FindByIdAndUserId(Rows(), id, userId);
      FindByIdIsOwnedLookup(id, userId);
      if found.None? {
        return NotFound(TransactionNotFound);
      }
      table := table - {id};
      response := Ok(());
    }

    /** GET /transactions/balance: the caller's balance and id; the other fields stay null. */
    method GetBalance(userId: int) returns (response: BalanceResponse)
      requires Valid()
      ensures response.balance == TotalIncome(Rows(), userId) - TotalExpense(Rows(), userId)
      ensures response.balance == SumBy(FindByUserId(Rows(), userId), Signed)
      ensures response.userId == userId
      ensures response.totalIncome.None? && response.totalExpense.None? && response.transactionCount.None?
    {
      var balance := CalculateBalance(Rows(), userId);
      response := BalanceResponse(balance, None, None, userId, None);
    }
  }

  // ---------------------------------------------------------------------
  // Clients: what the handlers' contracts let a caller conclude.

  /** A record read back right after `create` is the created record. */
  method CreateThenGetById(ledger: Ledger, userId: int, request: TransactionRequest, today: int)
    returns (created: Outcome<Transaction, LedgerError>, fetched: Outcome<Transaction, LedgerError>)
    requires ledger.Valid()
    modifies ledger
    ensures created.Ok? ==> fetched == created
  {
    created := ledger.Create(userId, request, today);
    if created.Ok? {
      fetched := ledger.GetById(userId, created.value.id);
    } else {
      fetched := created;
    }
  }

  /** Another user can neither read, update nor delete the created record. */
  method OtherUserCannotTouch(ledger: Ledger, owner: int, other: int, request: TransactionRequest, today: int)
    returns (created: Outcome<Transaction, LedgerError>, fetched: Outcome<Transaction, LedgerError>,
             updated: Outcome<Transaction, LedgerError>, deleted: Outcome<(), LedgerError>)
    requires ledger.Valid() && owner != other
    modifies ledger
    ensures created.Ok? ==>
              && fetched == NotFound(TransactionNotFound)
              && updated == NotFound(TransactionNotFound)
              && deleted == NotFound(TransactionNotFound)
              && created.value.id in ledger.table && ledger.table[created.value.id] == created.value
  {
    created := ledger.Create(owner, request, today);
    if created.Ok? {
      var id := created.value.id;
      fetched := ledger.GetById(other, id);
      updated := ledger.Update(other, id, request);
      deleted := ledger.Delete(other, id);
    } else {
      fetched, updated, deleted := created, created, NotFound(TransactionNotFound);
    }
  }

  /** After a delete, the record is gone: reading it or deleting it again is NotFound. */
  method DeleteTwice(ledger: Ledger, userId: int, id: int)
    returns (first: Outcome<(), LedgerError>, fetched: Outcome<Transaction, LedgerError>, second: Outcome<(), LedgerError>)
    requires ledger.Valid()
    modifies ledger
    ensures old(ledger.Owns(userId, id)) <==> first.Ok?
    ensures fetched == NotFound(TransactionNotFound)
    ensures second == NotFound(TransactionNotFound)
  {
    first := ledger.Delete(userId, id);
    fetched := ledger.GetById(userId, id);
    second := ledger.Delete(userId, id);
  }

  /** A salary of 1000.00 and a rent of 400.00 leave a balance of 600.00. */
  method SalaryAndRent(userId: int, today: int) returns (response: BalanceResponse)
    ensures response.balance == 600_00 && response.userId == userId
  {
    var ledger := new Ledger();
    assert !IsWhitespace("Salary"[0]) && !IsWhitespace("Rent"[0]);
    var salary := ledger.Create(userId, TransactionRequest(Some("Salary"), Some(1000_00), Some(Income), None), today);
    var rent := ledger.Create(userId, TransactionRequest(Some("Rent"), Some(400_00), Some(Expense), None), today);
    ledger.RowsOfTwo(salary.value, rent.value);
    OneIncomeOneExpense(salary.value, rent.value, userId);
    response := ledger.GetBalance(userId);
  }

  lemma OneIncomeOneExpense(s: Transaction, r: Transaction, userId: int)
    requires s.userId == userId && s.kind == Income
    requires r.userId == userId && r.kind == Expense
    ensures TotalIncome([s, r], userId) == s.amount
    ensures TotalExpense([s, r], userId) == r.amount
  {
    assert TotalIncome([s, r], userId) == s.amount by {
      WhereOfTwo(s, r, ByUserAndType(userId, Income));
      assert [s] + [] == [s];
      SingleMatchTotal([s, r], s, userId, Income);
    }
    assert TotalExpense([s, r], userId) == r.amount by {
      WhereOfTwo(s, r, ByUserAndType(userId, Expense));
      assert [] + [r] == [r];
      SingleMatchTotal([s, r], r, userId, Expense);
    }
  }

  /** The filter over two rows keeps each of them that matches, in order. */
  lemma WhereOfTwo(a: Transaction, b: Transaction, c: Criteria)
    ensures Where([a, b], c) == (if Satisfies(a, c) then [a] else []) + (if Satisfies(b, c) then [b] else [])
  {
    var tail := Where([b], c);
    assert tail == (if Satisfies(b, c) then [b] else []) by {
      assert [b][1..] == [];
      assert Where([b][1..], c) == [];
    }
    assert [a, b][1..] == [b];
    assert Where([a, b], c) == (if Satisfies(a, c) then [a] else []) + tail;
  }

  /** When one record alone is of a type, the total of that type is its amount. */
  lemma SingleMatchTotal(rows: seq<Transaction>, t: Transaction, userId: int, kind: TransactionType)
    requires Where(rows, ByUserAndType(userId, kind)) == [t]
    ensures SumBy(FindByUserIdAndType(rows, userId, kind), Amount) == t.amount
  {
    assert [t][1..] == [] && [t][..0] == [];
    assert OrderByDateDesc([t]) == [t];
  }
}
