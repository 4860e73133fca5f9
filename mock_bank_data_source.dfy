/**
 * The mock data source: a mutable, ordered list of banks, seeded with three
 * rows, and the five operations of the data-source interface over it. Each
 * method changes `banks` exactly as the matching function of BankTable says.
 */
module Mock {
  import opened Model
  import opened BankTable

  class MockBankDataSource {
    /** The table, in insertion order. */
    var banks: seq<Bank>

    /** The object invariant: account numbers are pairwise distinct. */
    ghost predicate Valid()
      reads this
    {
      DistinctKeys(banks)
    }

    /** A fresh data source holds the three seed rows, in order. */
    constructor ()
      ensures banks == Seed
      ensures Valid()
    {
      banks := Seed;
      SeedFacts();
    }

    /** All banks, in table order; nothing changes. */
    method RetrieveBanks() returns (r: seq<Bank>)
      ensures r == banks
    {
      r := banks;
    }

    /**
     * The first bank whose account number is `accountNumber`, or NotFound when
     * there is none; nothing changes. Under the invariant it is the only such bank.
     */
    method RetrieveBank(accountNumber: string) returns (r: Result<Bank>)
      ensures r == Retrieve(banks, accountNumber)
      ensures r.Ok? <==> HasKey(banks, accountNumber)
      ensures r.Ok? ==> r.value in banks && r.value.accountNumber == accountNumber
      ensures r.Err? ==> r.error == NotFound
      ensures Valid() ==> forall b | b in banks && b.accountNumber == accountNumber :: r == Ok(b)
    {
      var found := IndexOf(banks, accountNumber);
      match found {
        case None =>
          r := Err(NotFound);
        case Some(i) =>
          r := Ok(banks[i]);
      }
      if Valid() {
        forall b | b in banks && b.accountNumber == accountNumber
          ensures r == Ok(b)
        {
          RetrieveUnique(banks, accountNumber, b);
        }
      }
    }

    /** Refuses a taken key with AlreadyExists; otherwise appends `bank` and returns it. */
    method AddBank(bank: Bank) returns (r: Result<Bank>)
      modifies this
      ensures Step(r, banks) == Add(old(banks), bank)
      ensures old(Valid()) ==> Valid()
    {
      if HasKey(banks, bank.accountNumber) {
        r := Err(AlreadyExists);
        return;
      }
      if Valid() {
        AddPreservesDistinct(banks, bank);
      }
      banks := banks + [bank];
      r := Ok(bank);
    }

    /** Fails with NotFound on an absent key; otherwise removes the current row, appends `bank` and returns it. */
    method UpdateBank(bank: Bank) returns (r: Result<Bank>)
      modifies this
      ensures Step(r, banks) == Update(old(banks), bank)
      ensures old(Valid()) ==> Valid()
    {
      if Valid() {
        UpdateRetrieve(banks, bank);
      }
      var found := IndexOf(banks, bank.accountNumber);
      if found.None? {
        r := Err(NotFound);
        return;
      }
      var currentBank := banks[found.value];
      banks := RemoveFirst(banks, currentBank);
      banks := banks + [bank];
      r := Ok(bank);
    }

    /** Fails with NotFound on an absent key; otherwise removes the row with that key. */
    method DeleteBank(accountNumber: string) returns (r: Result<()>)
      modifies this
      ensures Step(r, banks) == Delete(old(banks), accountNumber)
      ensures old(Valid()) ==> Valid()
    {
      if Valid() {
        DeleteThenNotFound(banks, accountNumber);
      }
      var found := IndexOf(banks, accountNumber);
      if found.None? {
        r := Err(NotFound);
        return;
      }
      var currentBank := banks[found.value];
      banks := RemoveFirst(banks, currentBank);
      r := Ok(());
    }
  }

  // -----------------------------------------------------------------------
  // Scenarios run against a freshly seeded data source

  /** Listing starts with account "1234", and looking "1234" up gives the seeded row. */
  method SeededLookup() returns (all: seq<Bank>, one: Result<Bank>)
    ensures |all| == 3 && all[0].accountNumber == "1234"
    ensures one == Ok(Bank("1234", 1.0, 1))
  {
    var source := new MockBankDataSource();
    all := source.RetrieveBanks();
    one := source.RetrieveBank("1234");
    SeedFacts();
  }

  /** A key absent from the seed is not found by get, update or delete. */
  method AbsentKey(accountNumber: string, trust: Trust, fee: Int32)
    returns (got: Result<Bank>, updated: Result<Bank>, deleted: Result<()>)
    requires !HasKey(Seed, accountNumber)
    ensures got == Err(NotFound) && updated == Err(NotFound) && deleted == Err(NotFound)
  {
    var source := new MockBankDataSource();
    got := source.RetrieveBank(accountNumber);
    updated := source.UpdateBank(Bank(accountNumber, trust, fee));
    deleted := source.DeleteBank(accountNumber);
  }

  /** Adding a bank with a new key answers it, and looking the key up then finds it. */
  method AddNew(bank: Bank) returns (added: Result<Bank>, got: Result<Bank>)
    requires !HasKey(Seed, bank.accountNumber)
    ensures added == Ok(bank) && got == Ok(bank)
  {
    var source := new MockBankDataSource();
    added := source.AddBank(bank);
    AddOutcome(Seed, bank);
    assert source.banks == Seed + [bank];
    got := source.RetrieveBank(bank.accountNumber);
  }

  /** Adding a second bank with key "1234" fails with AlreadyExists and leaves the table as seeded. */
  method AddDuplicate() returns (added: Result<Bank>, all: seq<Bank>)
    ensures added == Err(AlreadyExists) && all == Seed
  {
    var source := new MockBankDataSource();
    SeedFacts();
    added := source.AddBank(Bank("1234", 0.0, 1));
    all := source.RetrieveBanks();
  }

  /** Updating "1234" answers the new bank, and looking "1234" up then finds the new values. */
  method UpdateExisting() returns (updated: Result<Bank>, got: Result<Bank>)
    ensures updated == Ok(Bank("1234", 0.0, 1)) && got == Ok(Bank("1234", 0.0, 1))
  {
    var source := new MockBankDataSource();
    SeedFacts();
    UpdateRetrieve(Seed, Bank("1234", 0.0, 1));
    updated := source.UpdateBank(Bank("1234", 0.0, 1));
    got := source.RetrieveBank("1234");
  }

  /** Deleting "1234" succeeds; a lookup or a second delete of it then fails with NotFound. */
  method DeleteExisting() returns (deleted: Result<()>, got: Result<Bank>, again: Result<()>)
    ensures deleted == Ok(()) && got == Err(NotFound) && again == Err(NotFound)
  {
    var source := new MockBankDataSource();
    SeedFacts();
    DeleteThenNotFound(Seed, "1234");
    deleted := source.DeleteBank("1234");
    got := source.RetrieveBank("1234");
    again := source.DeleteBank("1234");
  }
}
