# Personal finance services: ledger and credential store

A Dafny model of the two services of a small personal-finance backend:

- the **transaction service**, a per-user ledger of INCOME and EXPENSE
  records with create, list, read, partial update, delete and a balance;
- the **auth service**, a credential store of users with a unique username,
  a password digest and a role, with registration and login that issues a
  token.

Both services are modelled as in-memory state machines.

- The `transactions` table is the class `TransactionResource.Ledger`. It holds a `map<int, Transaction>` and the id generator `nextId`.
- The `users` table is the class `UserEntity.UserStore`. It holds a `seq<User>` in creation order, because users are never changed or removed.
- The entity's queries are pure functions over the table contents: the listing queries, the lookup by id and owner, the count and the totals.
- `calculateBalance` is a method. It fetches the listing and runs the source's accumulator loop over it, written as the method `SignedTotal`.
- Amounts are integer cents, because the column is a decimal with two fractional digits. Dates are day numbers.
- The caller's user id and "today" are parameters of the handlers.

Files:

| file | module | models |
|---|---|---|
| `results.dfy` | `Results` | nullable fields (`Option`) and handler outcomes (`Outcome`) |
| `java_strings.dfy` | `JavaStrings` | `String.isBlank()` (Java white space) and `String.length()` (UTF-16 code units) |
| `transaction.dfy` | `TransactionEntity` | `Transaction.java` |
| `transaction_resource.dfy` | `TransactionResource` | `TransactionResource.java` |
| `bcrypt.dfy` | `Bcrypt` | a stand-in for BCrypt |
| `user.dfy` | `UserEntity` | `User.java` |
| `auth_resource.dfy` | `AuthResource` | `AuthResource.java` |

Two behaviours of the code the model keeps as written:

- `update` stores the supplied fields without validating them again. A blank description or a non-positive amount is stored as given. So "amount > 0" holds of every record `create` makes, but it is not an invariant of the table.
- `getBalance` builds its response with the two-argument constructor of `BalanceResponse`. Only `balance` and `userId` are filled. `totalIncome`, `totalExpense` and `transactionCount` stay null, modelled as `None`.

## Model

| member | source | states |
|---|---|---|
| `TransactionEntity.Where` | transaction-service/src/main/java/com/finance/transaction/entity/Transaction.java:82 | a WHERE clause keeps every matching row exactly as often as it is stored and drops every other row |
| `TransactionEntity.OrderByDateDesc` | transaction-service/src/main/java/com/finance/transaction/entity/Transaction.java:82 | `order by date desc` returns a permutation of its input whose dates never increase; no tie order is promised |
| `TransactionEntity.FindByUserId` | transaction-service/src/main/java/com/finance/transaction/entity/Transaction.java:81-83 | the listing holds exactly the user's records, each as often as stored, newest first |
| `TransactionEntity.ListingMembership` | transaction-service/src/main/java/com/finance/transaction/entity/Transaction.java:81-83 | a record is listed for a user if and only if it is a stored row owned by that user |
| `TransactionEntity.FindByUserIdAndType` | transaction-service/src/main/java/com/finance/transaction/entity/Transaction.java:103-105 | the listing holds exactly the user's records of that type, newest first |
| `TransactionEntity.TypeListingsPartition` | transaction-service/src/main/java/com/finance/transaction/entity/Transaction.java:103-105 | the INCOME and EXPENSE listings are disjoint and together hold exactly the user's full listing, because the enum has two values |
| `TransactionEntity.FindByUserIdAndPeriod` | transaction-service/src/main/java/com/finance/transaction/entity/Transaction.java:115-120 | the listing holds exactly the user's records with start ≤ date ≤ end, newest first |
| `TransactionEntity.PeriodListingMembership` | transaction-service/src/main/java/com/finance/transaction/entity/Transaction.java:115-120 | every record of the period listing is a row of the user inside the inclusive period, and every such row is there |
| `TransactionEntity.FindByIdAndUserId` | transaction-service/src/main/java/com/finance/transaction/entity/Transaction.java:92-94 | a record is returned only when both id and owner match; None exactly when no row matches both |
| `TransactionEntity.CountByUserId` | transaction-service/src/main/java/com/finance/transaction/entity/Transaction.java:175-177 | the count is the number of rows the user owns, and it is zero exactly when the user owns no row |
| `TransactionEntity.CountIsListingLength` | transaction-service/src/main/java/com/finance/transaction/entity/Transaction.java:175-177 | the count equals the length of the user's `findByUserId` listing |
| `TransactionEntity.CalculateBalance` | transaction-service/src/main/java/com/finance/transaction/entity/Transaction.java:128-141 | the balance is the signed sum of the user's `findByUserId` listing, and it equals total income minus total expense |
| `TransactionEntity.SignedTotal` | transaction-service/src/main/java/com/finance/transaction/entity/Transaction.java:131-138 | the loop keeps "accumulator = signed sum of the visited prefix": INCOME adds its amount, EXPENSE subtracts it; the result is the signed sum of the whole list |
| `TransactionEntity.SumByPermutation` | transaction-service/src/main/java/com/finance/transaction/entity/Transaction.java:131-140 | a sum over a list does not depend on the order of the list, so the balance does not depend on the tie order |
| `TransactionEntity.SignedSumSplits` | transaction-service/src/main/java/com/finance/transaction/entity/Transaction.java:131-166 | over the user's rows, the signed sum is the INCOME amounts minus the EXPENSE amounts |
| `TransactionEntity.BalanceIsIncomeMinusExpense` | transaction-service/src/main/java/com/finance/transaction/entity/Transaction.java:128-167 | for every user, balance = `calculateTotalIncome` − `calculateTotalExpense`, modelled by `TotalIncome` and `TotalExpense` |
| `TransactionEntity.NoTransactionsMeansZero` | transaction-service/src/main/java/com/finance/transaction/entity/Transaction.java:128-177 | a user who owns no row has an empty listing, zero balance, zero totals and a zero count |
| `TransactionResource.Patched` | transaction-service/src/main/java/com/finance/transaction/resource/TransactionResource.java:138-149 | each supplied field replaces the stored one as given; each absent field is kept; id and owner never change; an all-absent request changes nothing |
| `TransactionResource.PatchIsIdempotent` | transaction-service/src/main/java/com/finance/transaction/resource/TransactionResource.java:138-149 | applying the same partial update twice gives the same record as applying it once |
| `TransactionResource.PatchKeepsNonPositiveAmount` | transaction-service/src/main/java/com/finance/transaction/resource/TransactionResource.java:141-143 | `update` stores a non-positive amount unchanged: nothing is validated again |
| `TransactionResource.Ledger.FindByIdIsOwnedLookup` | transaction-service/src/main/java/com/finance/transaction/entity/Transaction.java:92-94 | over the table, `findByIdAndUserId` returns the record `id` when the caller owns it, and nothing otherwise |
| `TransactionResource.Ledger.Create` | transaction-service/src/main/java/com/finance/transaction/resource/TransactionResource.java:51-83 | the three checks are made in order: blank description, then non-positive amount, then missing type. The first failure answers BadRequest and leaves the table unchanged. Success stores one record under a fresh id with the caller's id, the given fields and the request date, or today when none is given. No other record changes |
| `TransactionResource.Ledger.List` | transaction-service/src/main/java/com/finance/transaction/resource/TransactionResource.java:90-99 | exactly the caller's stored records, each once, dates never increasing |
| `TransactionResource.Ledger.GetById` | transaction-service/src/main/java/com/finance/transaction/resource/TransactionResource.java:107-118 | the caller's record, or the same NotFound for an absent id and for another user's id |
| `TransactionResource.Ledger.Update` | transaction-service/src/main/java/com/finance/transaction/resource/TransactionResource.java:127-152 | an owned record becomes `Patched` and nothing else changes; otherwise NotFound with the table unchanged; no record of another user changes |
| `TransactionResource.Ledger.Delete` | transaction-service/src/main/java/com/finance/transaction/resource/TransactionResource.java:161-174 | an owned record is removed and nothing else is; otherwise NotFound with the table unchanged; no record of another user changes |
| `TransactionResource.Ledger.GetBalance` | transaction-service/src/main/java/com/finance/transaction/resource/TransactionResource.java:182-187 | the caller's `calculateBalance`, equal to total income minus total expense, together with the caller's id; the other fields are null |
| `TransactionResource.CreateThenGetById` | transaction-service/src/main/java/com/finance/transaction/resource/TransactionResource.java:107-118 | a record read back right after a successful `create` is the created record |
| `TransactionResource.OtherUserCannotTouch` | transaction-service/src/main/java/com/finance/transaction/resource/TransactionResource.java:127-174 | another user gets NotFound from `getById`, `update` and `delete` on a created record, and the record stays as created |
| `TransactionResource.DeleteTwice` | transaction-service/src/main/java/com/finance/transaction/resource/TransactionResource.java:161-174 | the first delete succeeds exactly when the caller owns the record; a following `getById` and a second `delete` answer NotFound |
| `TransactionResource.SalaryAndRent` | transaction-service/src/main/java/com/finance/transaction/resource/TransactionResource.java:182-187 | an INCOME of 1000.00 and an EXPENSE of 400.00 give a balance of 600.00 |
| `JavaStrings.Utf16Length` | auth-service/src/main/java/com/finance/auth/resource/AuthResource.java:33 | `String.length()` counts UTF-16 code units: between one and two per character, one per character outside the supplementary planes |
| `Bcrypt.Hash` | auth-service/src/main/java/com/finance/auth/entity/User.java:58 | a password matches its own digest |
| `UserEntity.FindByUsername` | auth-service/src/main/java/com/finance/auth/entity/User.java:69-71 | a stored user with that name if one exists, None exactly when none does |
| `UserEntity.CountByUsername` | auth-service/src/main/java/com/finance/auth/entity/User.java:89-91 | zero exactly when no user has the name; at most one when usernames are unique |
| `UserEntity.UsernameExists` | auth-service/src/main/java/com/finance/auth/entity/User.java:89-91 | true exactly when `findByUsername` finds a user |
| `UserEntity.NewUser` | auth-service/src/main/java/com/finance/auth/entity/User.java:55-61 | the record `add` builds stores the digest of the password, and the role given or `"USER"` when none is given |
| `UserEntity.NewUserAcceptsPassword` | auth-service/src/main/java/com/finance/auth/entity/User.java:79-81 | `validatePassword`, modelled by `ValidatePassword`, accepts the password a user was created with |
| `UserEntity.FindAfterAdd` | auth-service/src/main/java/com/finance/auth/entity/User.java:55-71 | after `add` of a free name, `findByUsername` of that name finds the new user |
| `UserEntity.AddKeepsOtherLookups` | auth-service/src/main/java/com/finance/auth/entity/User.java:55-61 | after `add`, every other name is looked up exactly as before |
| `UserEntity.AddKeepsUsernamesUnique` | auth-service/src/main/java/com/finance/auth/entity/User.java:18-19 | `add` of a free name keeps usernames unique |
| `UserEntity.UserStore.Add` | auth-service/src/main/java/com/finance/auth/entity/User.java:55-61 | exactly one user is appended under the next id; existing users are unchanged; usernames stay unique |
| `AuthResource.IssuedFor` | auth-service/src/main/java/com/finance/auth/resource/AuthResource.java:70-76 | the token claims: issuer, subject = username, groups = {role}, userId = stored id; the response repeats username and role |
| `AuthResource.Login` | auth-service/src/main/java/com/finance/auth/resource/AuthResource.java:59-77 | an unknown name and a wrong password give the identical Unauthorized; success only for a stored user whose digest matches, with that user's token |
| `AuthResource.LoginSucceedsIff` | auth-service/src/main/java/com/finance/auth/resource/AuthResource.java:61-67 | with unique names, login succeeds if and only if some stored user has the name and a matching digest |
| `AuthResource.LoginAfterAdd` | auth-service/src/main/java/com/finance/auth/resource/AuthResource.java:47-76 | after `add` of a free name, logging in with the same password issues the new user's token |
| `AuthResource.Register` | auth-service/src/main/java/com/finance/auth/resource/AuthResource.java:25-52 | checks in order: blank username, then a password shorter than 4, then a taken name (Conflict). A failure leaves the store unchanged. Success adds exactly one user, keeps names unique, and a login with the same credentials then succeeds |
| `AuthResource.RegisterTwice` | auth-service/src/main/java/com/finance/auth/resource/AuthResource.java:40-47 | registering a name a second time is a Conflict and adds nobody |

## Left out

- The bearer token. The Ledger has no JWT check and does not read the `userId` claim (`getUserIdFromToken`). The caller's id is a parameter instead. A missing or malformed claim, which the service turns into an exception, is not modelled. Login returns the claims it would sign, not a signed token.
- BCrypt is a foreign library. `Bcrypt.Hash` stands in for it: a digest of its own type. The proofs use a single property of it: a password matches its own digest. Salting, the cost factor and BCrypt's 72-byte input limit are not modelled.
- Framework plumbing is left out: persistence, transactional boundaries, role checks and the HTTP response objects. All success statuses (201, 200, 204) are one `Ok`. Each error is an `Outcome` branch with a reason.
- The server clock is not read. "Today" is a parameter of `create`.
- Column limits are not modelled: amount precision 10, description 255, username 50 and role 20 characters. The database rejects overlong values at persist time, and the model accepts them. Amounts are unbounded integer cents, so an amount with more than two fractional digits cannot be expressed.
- The tie order of same-date records in a listing is left open. `OrderByDateDesc` happens to be stable, but no contract promises any tie order.
- The id generators are counters that move by one. The contracts of `Ledger.Create`, `UserStore.Add`, `Register` and `LoginAfterAdd`, and the example `SalaryAndRent`, state the counter's exact values: 1, 2, … in creation order. A database sequence guarantees only fresh ids, not these values.
- The DTO files are datatypes, not classes. A transaction response is the `Transaction` record itself, a field-for-field copy.
- `LoginRequest` is declared as a datatype with two string fields that cannot be null, so a login with a null username or password is not modelled.
- UserEntity.UserStore.Add: the source's `add` is public and, when the name is taken, `persist()` fails on the unique `username` column. That exception is what keeps names unique when two registrations interleave. The model replaces it with the precondition that the name is free, which `register` establishes by its own check when nothing runs concurrently.
- A missing request body is not modelled. `create(null)`, `update(id, null)`, `register(null)` and `login(null)` dereference the request and throw. The request datatypes here cannot be null.
- Usernames are compared exactly. A case-insensitive database collation is not modelled.
- The parameterised entity constructors `Transaction(userId, description, amount, type, date)` and `User(username, password, role)` are not modelled, because no core operation calls them. Neither is `toString`.
