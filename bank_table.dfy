/**
 * The in-memory bank table as values: an ordered sequence of banks, the
 * linear scans that look a key up in it, and each operation of the data
 * source as a function from the table before to its answer and the table
 * after. The lemmas state what the operations promise.
 */
module BankTable {
  import opened Model

  datatype Option<T> = None | Some(value: T)

  /** The two failures: a key that is absent, a key that is already taken. */
  datatype Error = NotFound | AlreadyExists

  datatype Result<T> = Ok(value: T) | Err(error: Error)

  /** What an operation answers, together with the table it leaves behind. */
  datatype Step<T> = Step(result: Result<T>, banks: seq<Bank>)

  /** The three rows the table starts with. */
  const Seed: seq<Bank> := [Bank("1234", 1.0, 1), Bank("3435", 3.14, 0), Bank("5678", 2.0, 2)]

  /** Some bank in `s` has account number `k`. */
  predicate HasKey(s: seq<Bank>, k: string) {
    exists i | 0 <= i < |s| :: s[i].accountNumber == k
  }

  /** The table invariant: no two rows share an account number. */
  predicate DistinctKeys(s: seq<Bank>) {
    forall i, j | 0 <= i < j < |s| :: s[i].accountNumber != s[j].accountNumber
  }

  /** A string made only of white space (or empty). */
  predicate IsBlank(s: string) {
    forall i | 0 <= i < |s| :: s[i] in {' ', '\t', '\n', '\r'}
  }

  /** The position of the first bank with account number `k`, if any. */
  function IndexOf(s: seq<Bank>, k: string): (r: Option<nat>)
    ensures r.None? <==> !HasKey(s, k)
    ensures r.Some? ==> r.value < |s| && s[r.value].accountNumber == k
    ensures r.Some? ==> forall j | 0 <= j < r.value :: s[j].accountNumber != k
  {
    if s == [] then None
    else if s[0].accountNumber == k then Some(0)
    else
      match IndexOf(s[1..], k)
      case None => None
      case Some(i) => Some(i + 1)
  }

  /** Looking a key up: the first bank with that account number, or NotFound. */
  function Retrieve(s: seq<Bank>, k: string): (r: Result<Bank>)
    ensures r.Ok? <==> HasKey(s, k)
    ensures r.Err? ==> r.error == NotFound
    ensures r.Ok? ==> r.value in s && r.value.accountNumber == k
  {
    match IndexOf(s, k)
    case None => Err(NotFound)
    case Some(i) => Ok(s[i])
  }

  /** Removing an element from a list: drops the first element equal to `b`, if any. */
  function RemoveFirst(s: seq<Bank>, b: Bank): (r: seq<Bank>)
    ensures b in s ==> |r| == |s| - 1
    ensures b !in s ==> r == s
    ensures multiset(r) == multiset(s) - multiset{b}
  {
    if s == [] then []
    else if s[0] == b then
      assert s == [s[0]] + s[1..];
      s[1..]
    else
      assert s == [s[0]] + s[1..];
      [s[0]] + RemoveFirst(s[1..], b)
  }

  /** Adding: refused when the key is taken, otherwise appended at the end. */
  function Add(s: seq<Bank>, b: Bank): Step<Bank> {
    if HasKey(s, b.accountNumber) then Step(Err(AlreadyExists), s)
    else Step(Ok(b), s + [b])
  }

  /** Updating: the first row with the key is removed and the new bank appended. */
  function Update(s: seq<Bank>, b: Bank): Step<Bank> {
    match IndexOf(s, b.accountNumber)
    case None => Step(Err(NotFound), s)
    case Some(i) => Step(Ok(b), RemoveFirst(s, s[i]) + [b])
  }

  /** Deleting: the first row with the key is removed. */
  function Delete(s: seq<Bank>, k: string): Step<()> {
    match IndexOf(s, k)
    case None => Step(Err(NotFound), s)
    case Some(i) => Step(Ok(()), RemoveFirst(s, s[i]))
  }

  // ---------------------------------------------------------------------
  // Lookups

  /** The seed table has three distinct, non-blank account numbers, in order. */
  lemma SeedFacts()
    ensures |Seed| == 3 && DistinctKeys(Seed)
    ensures forall b | b in Seed :: !IsBlank(b.accountNumber)
    ensures Retrieve(Seed, "1234") == Ok(Bank("1234", 1.0, 1))
    ensures Retrieve(Seed, "3435") == Ok(Bank("3435", 3.14, 0))
    ensures Retrieve(Seed, "5678") == Ok(Bank("5678", 2.0, 2))
  {
    assert !IsBlank(Seed[0].accountNumber) by { assert Seed[0].accountNumber[0] == '1'; }
    assert !IsBlank(Seed[1].accountNumber) by { assert Seed[1].accountNumber[0] == '3'; }
    assert !IsBlank(Seed[2].accountNumber) by { assert Seed[2].accountNumber[0] == '5'; }
  }

  /** Under the invariant the first match is the only one: a lookup succeeds with `b` exactly when `b` is a row with that key. */
  lemma RetrieveUnique(s: seq<Bank>, k: string, b: Bank)
    requires DistinctKeys(s)
    ensures Retrieve(s, k) == Ok(b) <==> b in s && b.accountNumber == k
  {
    if b in s && b.accountNumber == k {
      var j :| 0 <= j < |s| && s[j] == b;
      var i := IndexOf(s, k).value;
      assert i == j;
    }
  }

  /** `j` is the first position holding key `k`. */
  lemma IndexOfIs(s: seq<Bank>, k: string, j: nat)
    requires j < |s| && s[j].accountNumber == k
    requires forall m | 0 <= m < j :: s[m].accountNumber != k
    ensures IndexOf(s, k) == Some(j)
  {
    assert HasKey(s, k);
  }

  /** Removing `b` from a list whose first `b` sits at `i` gives `s[..i] + s[i+1..]`. */
  lemma {:induction false} RemoveFirstAt(s: seq<Bank>, b: Bank, i: nat)
    requires i < |s| && s[i] == b && b !in s[..i]
    ensures RemoveFirst(s, b) == s[..i] + s[i + 1..]
  {
    if i > 0 {
      var tail := s[1..];
      assert s[..i] == [s[0]] + tail[..i - 1];
      RemoveFirstAt(tail, b, i - 1);
      assert tail[i..] == s[i + 1..];
    }
  }

  /** The row found by a key lookup is the first of its value too, so removing it drops exactly that position. */
  lemma RemoveFirstMatch(s: seq<Bank>, i: nat)
    requires i < |s|
    requires forall j | 0 <= j < i :: s[j].accountNumber != s[i].accountNumber
    ensures RemoveFirst(s, s[i]) == s[..i] + s[i + 1..]
  {
    forall j | 0 <= j < i ensures s[..i][j] != s[i] {
      assert s[..i][j] == s[j];
    }
    RemoveFirstAt(s, s[i], i);
  }

  /** Appending a bank leaves every earlier match alone and makes `b` findable when its key was absent. */
  lemma RetrieveAppend(s: seq<Bank>, b: Bank, k: string)
    ensures Retrieve(s + [b], k) ==
      if HasKey(s, k) then Retrieve(s, k)
      else if b.accountNumber == k then Ok(b)
      else Err(NotFound)
  {
    var t := s + [b];
    match IndexOf(s, k)
    case Some(m) =>
      IndexOfIs(t, k, m);
    case None =>
      if b.accountNumber == k {
        IndexOfIs(t, k, |s|);
      } else {
        forall j | 0 <= j < |t| ensures t[j].accountNumber != k {
          if j < |s| { assert t[j] == s[j]; }
        }
      }
  }

  /** Removing the row at `i` does not change the lookup of any other key. */
  lemma RetrieveRemoved(s: seq<Bank>, i: nat, k: string)
    requires i < |s| && s[i].accountNumber != k
    ensures Retrieve(s[..i] + s[i + 1..], k) == Retrieve(s, k)
  {
    var t := s[..i] + s[i + 1..];
    assert |t| == |s| - 1;
    assert forall j | 0 <= j < |t| :: t[j] == if j < i then s[j] else s[j + 1];
    match IndexOf(s, k)
    case Some(m) =>
      if m < i {
        IndexOfIs(t, k, m);
      } else {
        assert m != i;
        IndexOfIs(t, k, m - 1);
      }
    case None =>
      forall j | 0 <= j < |t| ensures t[j].accountNumber != k {
        assert t[j] == s[if j < i then j else j + 1];
      }
  }

  /** Under the invariant, after removing the row at `i` its key is found nowhere. */
  lemma RemovedKeyGone(s: seq<Bank>, i: nat)
    requires DistinctKeys(s) && i < |s|
    ensures !HasKey(s[..i] + s[i + 1..], s[i].accountNumber)
    ensures DistinctKeys(s[..i] + s[i + 1..])
  {
    var t := s[..i] + s[i + 1..];
    assert forall j | 0 <= j < |t| :: t[j] == if j < i then s[j] else s[j + 1];
    forall j | 0 <= j < |t| ensures t[j].accountNumber != s[i].accountNumber {
      assert t[j] == s[if j < i then j else j + 1];
    }
    forall j, m | 0 <= j < m < |t| ensures t[j].accountNumber != t[m].accountNumber {
      assert t[j] == s[if j < i then j else j + 1];
      assert t[m] == s[if m < i then m else m + 1];
    }
  }

  // ---------------------------------------------------------------------
  // Add

  /**
   * Adding fails with AlreadyExists, leaving the table alone, exactly when the key
   * is taken; otherwise `b` is appended, returned, and is what the key now finds,
   * while every other key finds what it found before.
   */
  lemma AddOutcome(s: seq<Bank>, b: Bank)
    ensures Add(s, b).result.Err? <==> HasKey(s, b.accountNumber)
    ensures Add(s, b).result.Err? ==> Add(s, b) == Step(Err(AlreadyExists), s)
    ensures Add(s, b).result.Ok? ==>
      Add(s, b).result.value == b && Add(s, b).banks == s + [b] &&
      Retrieve(Add(s, b).banks, b.accountNumber) == Ok(b)
    ensures forall k | k != b.accountNumber :: Retrieve(Add(s, b).banks, k) == Retrieve(s, k)
  {
    RetrieveAppend(s, b, b.accountNumber);
    forall k | k != b.accountNumber
      ensures Retrieve(Add(s, b).banks, k) == Retrieve(s, k)
    {
      RetrieveAppend(s, b, k);
    }
  }

  /** Adding keeps account numbers pairwise distinct. */
  lemma AddPreservesDistinct(s: seq<Bank>, b: Bank)
    requires DistinctKeys(s)
    ensures DistinctKeys(Add(s, b).banks)
  {
    if !HasKey(s, b.accountNumber) {
      var t := s + [b];
      forall i, j | 0 <= i < j < |t|
        ensures t[i].accountNumber != t[j].accountNumber
      {
        if j == |s| {
          assert t[i] == s[i];
        }
      }
    }
  }

  // ---------------------------------------------------------------------
  // Update

  /**
   * Updating fails with NotFound, leaving the table alone, exactly when the key is
   * absent; otherwise the first row with the key is taken out, the others keep their
   * order, `b` goes at the end, the length is unchanged and `b` is returned.
   */
  lemma UpdateOutcome(s: seq<Bank>, b: Bank)
    ensures Update(s, b).result.Err? <==> !HasKey(s, b.accountNumber)
    ensures Update(s, b).result.Err? ==> Update(s, b) == Step(Err(NotFound), s)
    ensures Update(s, b).result.Ok? ==>
      var i := IndexOf(s, b.accountNumber).value;
      Update(s, b).result.value == b &&
      Update(s, b).banks == s[..i] + s[i + 1..] + [b] &&
      |Update(s, b).banks| == |s| &&
      multiset(Update(s, b).banks) == multiset(s) - multiset{s[i]} + multiset{b}
  {
    match IndexOf(s, b.accountNumber)
    case None =>
    case Some(i) =>
      RemoveFirstMatch(s, i);
  }

  /** Under the invariant the key now finds `b`, every other key finds what it found before, and the invariant holds after. */
  lemma UpdateRetrieve(s: seq<Bank>, b: Bank)
    requires DistinctKeys(s)
    ensures Update(s, b).result.Ok? ==> Retrieve(Update(s, b).banks, b.accountNumber) == Ok(b)
    ensures forall k | k != b.accountNumber :: Retrieve(Update(s, b).banks, k) == Retrieve(s, k)
    ensures DistinctKeys(Update(s, b).banks)
  {
    match IndexOf(s, b.accountNumber)
    case None =>
    case Some(i) =>
      RemoveFirstMatch(s, i);
      var t := s[..i] + s[i + 1..];
      RemovedKeyGone(s, i);
      RetrieveAppend(t, b, b.accountNumber);
      forall k | k != b.accountNumber
        ensures Retrieve(Update(s, b).banks, k) == Retrieve(s, k)
      {
        RetrieveAppend(t, b, k);
        RetrieveRemoved(s, i, k);
      }
      AddPreservesDistinct(t, b);
      assert Add(t, b).banks == t + [b];
  }

  // ---------------------------------------------------------------------
  // Delete

  /**
   * Deleting fails with NotFound, leaving the table alone, exactly when the key is
   * absent; otherwise exactly the first row with the key is removed, the others keep
   * their order and the length drops by one.
   */
  lemma DeleteOutcome(s: seq<Bank>, k: string)
    ensures Delete(s, k).result.Err? <==> !HasKey(s, k)
    ensures Delete(s, k).result.Err? ==> Delete(s, k) == Step(Err(NotFound), s)
    ensures Delete(s, k).result.Ok? ==>
      var i := IndexOf(s, k).value;
      Delete(s, k).banks == s[..i] + s[i + 1..] &&
      |Delete(s, k).banks| == |s| - 1
  {
    match IndexOf(s, k)
    case None =>
    case Some(i) =>
      RemoveFirstMatch(s, i);
  }

  /**
   * Under the invariant a successful delete leaves the key absent: looking it up or
   * deleting it again fails with NotFound. Other keys find what they found before,
   * and the invariant holds after.
   */
  lemma DeleteThenNotFound(s: seq<Bank>, k: string)
    requires DistinctKeys(s)
    ensures Delete(s, k).result.Ok? ==>
      Retrieve(Delete(s, k).banks, k) == Err(NotFound) &&
      Delete(Delete(s, k).banks, k) == Step(Err(NotFound), Delete(s, k).banks)
    ensures forall k' | k' != k :: Retrieve(Delete(s, k).banks, k') == Retrieve(s, k')
    ensures DistinctKeys(Delete(s, k).banks)
  {
    match IndexOf(s, k)
    case None =>
    case Some(i) =>
      RemoveFirstMatch(s, i);
      RemovedKeyGone(s, i);
      forall k' | k' != k
        ensures Retrieve(Delete(s, k).banks, k') == Retrieve(s, k')
      {
        RetrieveRemoved(s, i, k');
      }
  }
}
