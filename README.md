# Bank table of the Kotlin Spring tutorial service, in Dafny

The service keeps "bank" records (account number, trust score, transaction fee) in an
in-memory table, `MockBankDataSource`. The table is a mutable, ordered list seeded with
three rows. It offers five operations keyed by account number, each found by a linear scan:
list all, get one, add, update and delete. A duplicate key on add and a missing key on get,
update or delete are errors. An update removes the old row and appends the new one.

The model has three modules:

- `Model` (bank.dfy): the `Bank` record. Equality is structural, as for a Kotlin data class.
- `BankTable` (bank_table.dfy): the table as a sequence of banks and the operations on it.
  - Lookup: `IndexOf` is the first-match scan and `Retrieve` is the lookup.
  - `RemoveFirst` is the list's remove-by-value.
  - `Add`, `Update` and `Delete` are functions from the table before to a `Step`: the
    answer plus the table after.
  - The lemmas state what each operation promises, and that every operation keeps
    `DistinctKeys`: no two rows share an account number.
- `Mock` (mock_bank_data_source.dfy): the class `MockBankDataSource` with its
  `banks: seq<Bank>` field.
  - Each method changes `banks` exactly as the matching `BankTable` function says, and
    keeps `Valid()` (= `DistinctKeys(banks)`).
  - Scenario methods replay the controller tests against a freshly seeded table.

Exceptions become values: `NoSuchElementException` is `Err(NotFound)` and the
`IllegalArgumentException` of a duplicate add is `Err(AlreadyExists)`.

## Model

| member | source | states |
|---|---|---|
| BankTable.IndexOf | src/main/kotlin/com/tutorial/kotlin/spring/thenewboston/datasource/mock/MockBankDataSource.kt:26 | the first position whose account number is the key; none exactly when no row has the key |
| BankTable.Retrieve | src/main/kotlin/com/tutorial/kotlin/spring/thenewboston/datasource/mock/MockBankDataSource.kt:24-28 | a lookup succeeds exactly when some row has the key, with a row of the table that has that key; otherwise NotFound |
| BankTable.RemoveFirst | src/main/kotlin/com/tutorial/kotlin/spring/thenewboston/datasource/mock/MockBankDataSource.kt:41 | removing by value drops one occurrence of the value if present (length one less, multiset minus that value) and leaves the list alone otherwise |
| BankTable.SeedFacts | src/main/kotlin/com/tutorial/kotlin/spring/thenewboston/datasource/mock/MockBankDataSource.kt:16-20 | the seed is three rows with pairwise distinct, non-blank account numbers, and each seeded key finds its own row |
| BankTable.RetrieveUnique | src/main/kotlin/com/tutorial/kotlin/spring/thenewboston/datasource/mock/MockBankDataSource.kt:24-28 | under the invariant a lookup of k answers b exactly when b is a row with key k |
| BankTable.RemoveFirstAt | src/main/kotlin/com/tutorial/kotlin/spring/thenewboston/datasource/mock/MockBankDataSource.kt:41 | removing a value whose first occurrence is at i yields the list without position i, others in order |
| BankTable.RemoveFirstMatch | src/main/kotlin/com/tutorial/kotlin/spring/thenewboston/datasource/mock/MockBankDataSource.kt:39-41 | removing the row found by the key scan drops exactly that position |
| BankTable.RetrieveAppend | src/main/kotlin/com/tutorial/kotlin/spring/thenewboston/datasource/mock/MockBankDataSource.kt:34 | appending a row keeps every earlier match and makes the new row findable when its key was absent |
| BankTable.RetrieveRemoved | src/main/kotlin/com/tutorial/kotlin/spring/thenewboston/datasource/mock/MockBankDataSource.kt:49 | removing a row does not change the lookup of any other key |
| BankTable.RemovedKeyGone | src/main/kotlin/com/tutorial/kotlin/spring/thenewboston/datasource/mock/MockBankDataSource.kt:47-49 | under the invariant, a removed row's key is no longer in the table, and the invariant still holds |
| BankTable.AddOutcome | src/main/kotlin/com/tutorial/kotlin/spring/thenewboston/datasource/mock/MockBankDataSource.kt:30-36 | add fails with AlreadyExists, table unchanged, exactly when the key is taken; otherwise it appends b, returns b, the key then finds b and every other key finds what it did before |
| BankTable.AddPreservesDistinct | src/main/kotlin/com/tutorial/kotlin/spring/thenewboston/datasource/mock/MockBankDataSource.kt:30-36 | add keeps account numbers pairwise distinct |
| BankTable.UpdateOutcome | src/main/kotlin/com/tutorial/kotlin/spring/thenewboston/datasource/mock/MockBankDataSource.kt:38-44 | update fails with NotFound, table unchanged, exactly when the key is absent; otherwise the table becomes old[..i] + old[i+1..] + [b], same length, same multiset but old[i] replaced by b, and b is returned |
| BankTable.UpdateRetrieve | src/main/kotlin/com/tutorial/kotlin/spring/thenewboston/datasource/mock/MockBankDataSource.kt:38-44 | under the invariant, after update the key finds b, other keys find what they did before, and the invariant holds |
| BankTable.DeleteOutcome | src/main/kotlin/com/tutorial/kotlin/spring/thenewboston/datasource/mock/MockBankDataSource.kt:46-50 | delete fails with NotFound, table unchanged, exactly when the key is absent; otherwise the table becomes old[..i] + old[i+1..], one shorter, others in order |
| BankTable.DeleteThenNotFound | src/main/kotlin/com/tutorial/kotlin/spring/thenewboston/datasource/mock/MockBankDataSource.kt:46-50 | under the invariant, after a successful delete a lookup and a second delete of the key fail with NotFound; other keys are unaffected and the invariant holds |
| Mock.MockBankDataSource.constructor | src/main/kotlin/com/tutorial/kotlin/spring/thenewboston/datasource/mock/MockBankDataSource.kt:16-20 | a new data source holds exactly the seed rows in order and satisfies the invariant |
| Mock.MockBankDataSource.RetrieveBanks | src/main/kotlin/com/tutorial/kotlin/spring/thenewboston/datasource/mock/MockBankDataSource.kt:22 | returns the whole table in its order, changing nothing |
| Mock.MockBankDataSource.RetrieveBank | src/main/kotlin/com/tutorial/kotlin/spring/thenewboston/datasource/mock/MockBankDataSource.kt:24-28 | returns the first row with the key or NotFound, changing nothing; under the invariant the row is the only one with that key |
| Mock.MockBankDataSource.AddBank | src/main/kotlin/com/tutorial/kotlin/spring/thenewboston/datasource/mock/MockBankDataSource.kt:30-36 | the new table and answer are those of Add on the old table; the invariant is kept |
| Mock.MockBankDataSource.UpdateBank | src/main/kotlin/com/tutorial/kotlin/spring/thenewboston/datasource/mock/MockBankDataSource.kt:38-44 | the new table and answer are those of Update on the old table; the invariant is kept |
| Mock.MockBankDataSource.DeleteBank | src/main/kotlin/com/tutorial/kotlin/spring/thenewboston/datasource/mock/MockBankDataSource.kt:46-50 | the new table and answer are those of Delete on the old table; the invariant is kept |
| Mock.SeededLookup | src/test/kotlin/com/tutorial/kotlin/spring/thenewboston/controller/BankControllerTest.kt:35-73 | on a fresh table the listing starts with "1234" and getting "1234" answers ("1234", 1.0, 1) |
| Mock.AbsentKey | src/test/kotlin/com/tutorial/kotlin/spring/thenewboston/controller/BankControllerTest.kt:169-208 | on a fresh table a key not in the seed is NotFound for get, update and delete |
| Mock.AddNew | src/test/kotlin/com/tutorial/kotlin/spring/thenewboston/controller/BankControllerTest.kt:92-115 | on a fresh table adding a bank with a new key answers that bank, and getting its key then finds it |
| Mock.AddDuplicate | src/test/kotlin/com/tutorial/kotlin/spring/thenewboston/controller/BankControllerTest.kt:117-134 | adding ("1234", 0.0, 1) to a fresh table fails with AlreadyExists and the table stays as seeded |
| Mock.UpdateExisting | src/test/kotlin/com/tutorial/kotlin/spring/thenewboston/controller/BankControllerTest.kt:142-167 | updating "1234" answers the new bank, and getting "1234" then finds the new values |
| Mock.DeleteExisting | src/test/kotlin/com/tutorial/kotlin/spring/thenewboston/controller/BankControllerTest.kt:210-223 | deleting "1234" succeeds; getting or deleting it again then fails with NotFound |

## Left out

- BankService.kt: it forwards each call unchanged to the data source, so the class methods stand for it.
- BankController.kt: the HTTP routes and status codes are framework plumbing. The mapping from exceptions to 404/400 is not in the code (its handler is commented out).
- BankDataSource.kt: the interface only declares the five signatures; the model has its one implementation.
- The logger call in retrieveBank: it has no effect on the table.
- Floating point: `trust` is a Dafny `real`, only stored and compared for equality. IEEE doubles (NaN, -0.0) are not modelled.
- Mock.MockBankDataSource.RetrieveBanks: returns a snapshot of the table. In Kotlin the caller gets the live list, which later operations change (aliasing).
- Concurrency: the list is unsynchronised shared state in a web server; the model is single-threaded.
- BankTable.IsBlank: counts only space, tab, newline and carriage return as white space. Kotlin's `isBlank` accepts every Unicode white-space character.
- Mock.AbsentKey: the tests use a random ten-character key; the model requires instead that the key is absent from the seed.
- The methods do not require the invariant. They work on any table and promise to keep the invariant when it held before. The lemmas about a lookup after update or delete assume it. With duplicate keys, the source's update and delete remove only the first row with the key.
