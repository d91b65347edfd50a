/**
 * The chained hash table of people: a fixed array of `INITIAL_LEN` bucket
 * heads, each a chain of people kept in non-decreasing `strcmp` order of their
 * first names, and a counter of the people stored.
 *
 * A chain is modelled as the sequence of the records it links, head first;
 * the pointer splicing itself is modelled in the linked-list modules.
 */
module HashTable {
  import opened CStrings
  import opened Chains

  /** Number of buckets, and the modulus of the hash. */
  const INITIAL_LEN: int := 7

  /** `struct person` without its `next` link, which the chain order gives. */
  datatype Person = Person(firstName: Name, lastName: Name, id: int)

  /** Both names fit their `MAX_LEN` buffers. */
  predicate IsPerson(p: Person) {
    IsName(p.firstName) && IsName(p.lastName)
  }

  // ---------------------------------------------------------------------
  // hash_function
  // ---------------------------------------------------------------------

  /**
   * The value of a `char` holding byte `b`. Plain `char` is taken to be
   * signed, as on x86 compilers, so bytes from 128 up read as negative.
   */
  function CharValue(b: Byte): (v: int)
    ensures -128 <= v < 128
    ensures b < 128 ==> v == b
    ensures (v - b) % 256 == 0
  {
    if b < 128 then b else b - 256
  }

  /**
   * What one character adds to `string_sum`: its value minus `'0'`, which is
   * negative for every byte below `'0'` and for every byte from 128 up.
   */
  function Weight(b: Byte): (w: int)
    ensures -176 <= w <= 79
    ensures b < 128 ==> w == b - '0' as int
    ensures w < 0 <==> b < '0' as int || 128 <= b
  {
    CharValue(b) - '0' as int
  }

  /**
   * `string_sum` after the summing loop has read all of `s`: each character
   * adds between -176 and 79.
   */
  function CharSum(s: Name): (r: int)
    ensures -176 * |s| <= r <= 79 * |s|
  {
    if s == [] then 0 else Weight(s[0]) + CharSum(s[1..])
  }

  /**
   * `a % INITIAL_LEN` with C's `%` on `int` (ISO C99 section 6.5.5,
   * paragraph 6): the quotient is truncated toward zero, so the remainder
   * takes the sign of the dividend.
   */
  function CRem(a: int): (r: int)
    ensures (a - r) % INITIAL_LEN == 0
    ensures a >= 0 ==> 0 <= r < INITIAL_LEN
    ensures a < 0 ==> -INITIAL_LEN < r <= 0
  {
    if a >= 0 then a % INITIAL_LEN else -((-a) % INITIAL_LEN)
  }

  /**
   * The value `hash_function(first_name, last_name)` returns: the lower-cased
   * concatenation's `c - '0'` sum, reduced by C's `%` by `INITIAL_LEN`.
   */
  function Hash(firstName: Name, lastName: Name): (r: int)
    ensures -INITIAL_LEN < r < INITIAL_LEN
    ensures (CharSum(Lower(firstName + lastName)) - r) % INITIAL_LEN == 0
    ensures r < 0 ==> CharSum(Lower(firstName + lastName)) < 0
    ensures CharSum(Lower(firstName + lastName)) < 0 ==> r <= 0
  {
    CRem(CharSum(Lower(firstName + lastName)))
  }

  /**
   * `hash_function`: copies both names into a `MAX_LEN * 2` buffer
   * (`strcpy`, `strcat`), lower-cases the buffer in place up to its NUL, then
   * sums `c - '0'` over it and reduces the sum with C's `%`.
   */
  method HashFunction(firstName: Name, lastName: Name) returns (hashValue: int)
    requires IsName(firstName) && IsName(lastName)
    ensures hashValue == Hash(firstName, lastName)
  {
    ghost var s := firstName + lastName;
    var concatName := Concatenate(firstName, lastName);

    // for (i = 0; concat_name[i]; i++) concat_name[i] = tolower(...)
    var i := 0;
    while concatName[i] != 0
      invariant 0 <= i <= |s| && concatName[|s|] == 0
      invariant forall j :: 0 <= j < i ==> concatName[j] == ToLower(s[j])
      invariant forall j :: i <= j < |s| ==> concatName[j] == s[j]
      decreases |s| - i
    {
      concatName[i] := ToLower(concatName[i]);
      i := i + 1;
    }
    ghost var t := Lower(s);
    forall j | 0 <= j < |s|
      ensures concatName[j] == t[j] && t[j] != 0
    {
      LowerAt(s, j);
    }

    // while (concat_name[j] != '\0') string_sum += concat_name[j] - '0'
    var k := 0;
    var stringSum := 0;
    while concatName[k] != 0
      invariant 0 <= k <= |s| && concatName[|s|] == 0
      invariant forall j :: 0 <= j < |s| ==> concatName[j] == t[j]
      invariant stringSum == CharSum(t[..k])
      decreases |s| - k
    {
      CharSumAppend(t[..k], [t[k]]);
      assert t[..k + 1] == t[..k] + [t[k]];
      stringSum := stringSum + (CharValue(concatName[k]) - '0' as int);
      k := k + 1;
    }
    assert t[..k] == t;
    hashValue := CRem(stringSum);
  }

  /**
   * `strcpy(concat_name, first_name); strcat(concat_name, last_name)` on a
   * fresh `MAX_LEN * 2` buffer: the two names back to back, then a NUL.
   */
  method Concatenate(firstName: Name, lastName: Name) returns (concatName: array<Byte>)
    requires IsName(firstName) && IsName(lastName)
    ensures fresh(concatName) && concatName.Length == MAX_LEN * 2
    ensures concatName[..|firstName + lastName|] == firstName + lastName
    ensures concatName[|firstName + lastName|] == 0
  {
    concatName := new Byte[MAX_LEN * 2];
    var n := 0;
    while n < |firstName|
      invariant 0 <= n <= |firstName|
      invariant concatName[..n] == firstName[..n]
    {
      concatName[n] := firstName[n];
      n := n + 1;
    }
    var m := 0;
    while m < |lastName|
      invariant 0 <= m <= |lastName|
      invariant concatName[..|firstName| + m] == firstName + lastName[..m]
    {
      concatName[|firstName| + m] := lastName[m];
      m := m + 1;
    }
    concatName[|firstName| + |lastName|] := 0;
  }

  // ---------------------------------------------------------------------
  // Properties of the hash
  // ---------------------------------------------------------------------

  /** The sum over a concatenation is the sum of the sums. */
  lemma {:induction false} CharSumAppend(a: Name, b: Name)
    ensures CharSum(a + b) == CharSum(a) + CharSum(b)
  {
    if a == [] {
      assert a + b == b;
    } else {
      assert (a + b)[1..] == a[1..] + b;
      CharSumAppend(a[1..], b);
    }
  }

  /** Taking one character out of a string takes its weight out of the lowered sum. */
  lemma {:induction false} LoweredSumRemoveAt(b: Name, k: nat)
    requires k < |b|
    ensures CharSum(Lower(b)) == CharSum(Lower(RemoveAt(b, k))) + Weight(ToLower(b[k]))
  {
    if k == 0 {
      assert RemoveAt(b, k) == b[1..];
    } else {
      var r := RemoveAt(b, k);
      assert r[0] == b[0] && r[1..] == RemoveAt(b[1..], k - 1);
      LoweredSumRemoveAt(b[1..], k - 1);
    }
  }

  /** The lower-cased sum is an order-independent sum over the characters. */
  lemma {:induction false} LoweredSumPermutation(a: Name, b: Name)
    requires multiset(a) == multiset(b)
    ensures CharSum(Lower(a)) == CharSum(Lower(b))
  {
    if a != [] {
      var x := a[0];
      assert x in multiset(b);
      var k :| 0 <= k < |b| && b[k] == x;
      RemoveAtContents(a, 0);
      RemoveAtContents(b, k);
      LoweredSumPermutation(RemoveAt(a, 0), RemoveAt(b, k));
      LoweredSumRemoveAt(a, 0);
      LoweredSumRemoveAt(b, k);
    }
  }

  /**
   * The hash sees only the characters of the concatenation, in any order:
   * two name pairs whose concatenations are permutations of one another (in
   * particular, equal concatenations) hash alike.
   */
  lemma HashOfPermutation(f1: Name, l1: Name, f2: Name, l2: Name)
    requires multiset(f1 + l1) == multiset(f2 + l2)
    ensures Hash(f1, l1) == Hash(f2, l2)
  {
    LoweredSumPermutation(f1 + l1, f2 + l2);
  }

  /** The hash ignores case: lower-casing either name first changes nothing. */
  lemma HashCaseInsensitive(firstName: Name, lastName: Name)
    ensures Hash(firstName, lastName) == Hash(Lower(firstName), Lower(lastName))
  {
    LowerAppend(firstName, lastName);
    LowerAppend(Lower(firstName), Lower(lastName));
    LowerIdempotent(firstName);
    LowerIdempotent(lastName);
  }

  /**
   * For two names that fit their buffers, `string_sum` stays far inside the
   * 32-bit `int` range, so the summing loop cannot overflow.
   */
  lemma SumFitsInt32(firstName: Name, lastName: Name)
    requires IsName(firstName) && IsName(lastName)
    ensures -0x8000_0000 <= CharSum(Lower(firstName + lastName)) < 0x8000_0000
  {
  }

  /** A string of ASCII characters from `'0'` up has a non-negative sum. */
  lemma {:induction false} CharSumNonNegative(s: Name)
    requires forall i :: 0 <= i < |s| ==> '0' as int <= s[i] < 128
    ensures CharSum(s) >= 0
  {
    if s != [] {
      CharSumNonNegative(s[1..]);
    }
  }

  /**
   * When every character of the two names is ASCII from `'0'` up (letters
   * and digits are), the hash is a valid bucket index.
   */
  lemma HashInRange(firstName: Name, lastName: Name)
    requires forall i :: 0 <= i < |firstName + lastName| ==> '0' as int <= (firstName + lastName)[i] < 128
    ensures 0 <= Hash(firstName, lastName) < INITIAL_LEN
  {
    var s := firstName + lastName;
    forall i | 0 <= i < |s|
      ensures '0' as int <= Lower(s)[i] < 128
    {
      LowerAt(s, i);
    }
    CharSumNonNegative(Lower(s));
  }

  /**
   * With bytes from 128 up read as negative, the hash can be negative, and
   * `store[hash_index]` then indexes before the array: "é" (UTF-8 bytes
   * 0xC3 0xA9) as both names hashes to -5.
   */
  lemma NegativeHashExample()
    ensures Hash([0xC3, 0xA9], [0xC3, 0xA9]) == -5
  {
    var s: Name := [0xC3, 0xA9, 0xC3, 0xA9];
    assert [0xC3, 0xA9] + [0xC3, 0xA9] == s;
    assert Lower(s) == s;
    var s3: Name := [0xA9];
    var s2: Name := [0xC3, 0xA9];
    var s1: Name := [0xA9, 0xC3, 0xA9];
    assert s3[1..] == [];
    assert CharSum(s3) == -135;
    assert s2[1..] == s3;
    assert CharSum(s2) == -244;
    assert s1[1..] == s2;
    assert CharSum(s1) == -379;
    assert s[1..] == s1;
    assert CharSum(s) == -488;
  }

  /**
   * A negative hash needs no byte from 128 up: `'-'` is ASCII and reads the
   * same whether `char` is signed or not, and "-" as both names hashes to -6.
   */
  lemma AsciiNegativeHashExample()
    ensures Hash([45], [45]) == -6
  {
    var s: Name := [45, 45];
    assert [45] + [45] == s;
    assert Lower(s) == s;
    assert s[1..] == [45];
    assert CharSum([45]) == -3;
  }

  /**
   * The bucket the table uses: the hash brought into `[0, INITIAL_LEN)` by
   * adding `INITIAL_LEN` to a negative value. It is the hash itself whenever
   * that is already a valid index.
   */
  function BucketIndex(firstName: Name, lastName: Name): (b: nat)
    ensures b < INITIAL_LEN
    ensures (b - Hash(firstName, lastName)) % INITIAL_LEN == 0
    ensures Hash(firstName, lastName) >= 0 ==> b == Hash(firstName, lastName)
  {
    Hash(firstName, lastName) % INITIAL_LEN
  }

  // ---------------------------------------------------------------------
  // The table
  // ---------------------------------------------------------------------

  /** The first names along a chain. */
  function FirstNames(chain: seq<Person>): (r: seq<Name>)
    ensures |r| == |chain|
    ensures forall i :: 0 <= i < |chain| ==> r[i] == chain[i].firstName
  {
    seq(|chain|, i requires 0 <= i < |chain| => chain[i].firstName)
  }

  /** Splicing a record into a chain splices its first name into the names. */
  lemma FirstNamesInsertAt(chain: seq<Person>, k: nat, p: Person)
    requires k <= |chain|
    ensures FirstNames(InsertAt(chain, k, p)) == InsertAt(FirstNames(chain), k, p.firstName)
  {
  }

  /** A well-formed chain of bucket `b`: sorted, and every record hashes to `b`. */
  ghost predicate GoodChain(chain: seq<Person>, b: int) {
    && Sorted(FirstNames(chain))
    && forall p :: p in chain ==> IsPerson(p) && BucketIndex(p.firstName, p.lastName) == b
  }

  /** The number of records in all chains. */
  function TotalSize(chains: seq<seq<Person>>): nat {
    if chains == [] then 0 else TotalSize(chains[..|chains| - 1]) + |chains[|chains| - 1]|
  }

  /** All records, bucket by bucket, each chain head first. */
  function Flatten(chains: seq<seq<Person>>): seq<Person> {
    if chains == [] then [] else Flatten(chains[..|chains| - 1]) + chains[|chains| - 1]
  }

  lemma {:induction false} FlattenSize(chains: seq<seq<Person>>)
    ensures |Flatten(chains)| == TotalSize(chains)
  {
    if chains != [] {
      FlattenSize(chains[..|chains| - 1]);
    }
  }

  lemma {:induction false} TotalSizeOfEmpty(chains: seq<seq<Person>>)
    requires forall i :: 0 <= i < |chains| ==> chains[i] == []
    ensures TotalSize(chains) == 0
  {
    if chains != [] {
      TotalSizeOfEmpty(chains[..|chains| - 1]);
    }
  }

  /** Replacing one chain changes the total by the difference in length. */
  lemma {:induction false} TotalSizeUpdate(chains: seq<seq<Person>>, i: nat, c: seq<Person>)
    requires i < |chains|
    ensures TotalSize(chains[i := c]) == TotalSize(chains) - |chains[i]| + |c|
  {
    var n := |chains| - 1;
    if i < n {
      assert chains[i := c][..n] == chains[..n][i := c];
      TotalSizeUpdate(chains[..n], i, c);
    } else {
      assert chains[i := c][..n] == chains[..n];
    }
  }

  /** `struct hashtable`. */
  class Table {
    const length: int
    const store: array<seq<Person>>
    var numElements: int

    ghost predicate Valid()
      reads this, store
    {
      && length == store.Length == INITIAL_LEN
      && numElements == TotalSize(store[..])
      && forall b :: 0 <= b < store.Length ==> GoodChain(store[b], b)
    }

    /** `new_hashtable`: `INITIAL_LEN` empty buckets and no elements. */
    constructor ()
      ensures Valid() && fresh(store)
      ensures length == INITIAL_LEN && numElements == 0
      ensures forall b :: 0 <= b < store.Length ==> store[b] == []
    {
      length := INITIAL_LEN;
      numElements := 0;
      store := new seq<Person>[INITIAL_LEN](_ => []);
      new;
      TotalSizeOfEmpty(store[..]);
    }

    /**
     * `insert`: counts the person, hashes the names, and splices the record
     * into its bucket's chain: at the head when the chain is empty or its head's
     * first name is strictly greater, otherwise after the head and after every
     * following record whose first name is strictly smaller.
     */
    method Insert(p: Person)
      requires Valid() && IsPerson(p)
      modifies this, store
      ensures Valid()
      ensures numElements == old(numElements) + 1
      ensures var b := BucketIndex(p.firstName, p.lastName);
        && store[b] == InsertAt(old(store[b]), SplicePoint(FirstNames(old(store[b])), p.firstName), p)
        && forall i :: 0 <= i < store.Length && i != b ==> store[i] == old(store[i])
    {
      numElements := numElements + 1;
      var hashIndex := HashFunction(p.firstName, p.lastName);
      if hashIndex < 0 {
        // A negative hash would index before `store`; see BucketIndex.
        hashIndex := hashIndex + INITIAL_LEN;
      }
      assert hashIndex == BucketIndex(p.firstName, p.lastName);
      var chain := store[hashIndex];
      var k := FindSlot(chain, p.firstName);
      store[hashIndex] := InsertAt(chain, k, p);
      KeepsChainsGood(chain, hashIndex, k, p);
      TotalSizeUpdate(old(store[..]), hashIndex, InsertAt(chain, k, p));
      assert store[..] == old(store[..])[hashIndex := InsertAt(chain, k, p)];
    }

    /**
     * Where `insert` links the new record into `chain`: at the head when the
     * chain is empty or the head's first name is strictly greater; otherwise
     * `current_node` walks on while the next first name is strictly smaller,
     * and the record goes right after it.
     */
    static method FindSlot(chain: seq<Person>, firstName: Name) returns (k: nat)
      ensures k == SplicePoint(FirstNames(chain), firstName)
    {
      if chain == [] || StrCmp(chain[0].firstName, firstName) > 0 {
        k := 0;
      } else {
        var current := 0;
        while current + 1 < |chain| && StrCmp(chain[current + 1].firstName, firstName) < 0
          invariant 0 <= current < |chain|
          invariant forall j :: 1 <= j <= current ==> Less(chain[j].firstName, firstName)
        {
          current := current + 1;
        }
        ScanLessUnique(FirstNames(chain)[1..], firstName, current);
        k := current + 1;
      }
    }

    /** A well-formed chain stays well-formed with the record spliced in. */
    static lemma KeepsChainsGood(chain: seq<Person>, b: int, k: nat, p: Person)
      requires GoodChain(chain, b) && IsPerson(p) && BucketIndex(p.firstName, p.lastName) == b
      requires k == SplicePoint(FirstNames(chain), p.firstName)
      ensures GoodChain(InsertAt(chain, k, p), b)
    {
      FirstNamesInsertAt(chain, k, p);
      SplicePointSorted(FirstNames(chain), p.firstName);
      InsertAtContents(chain, k, p);
      assert forall q :: q in InsertAt(chain, k, p) ==> q in multiset(chain) + multiset{p};
    }

    /** The inner loop of `delete_hashtable`: releases a chain node by node
        from its head. */
    static method FreeChain(chain: seq<Person>) returns (ghost visited: seq<Person>)
      ensures visited == chain
    {
      visited := [];
      var current := 0;
      while current < |chain|
        invariant 0 <= current <= |chain|
        invariant visited == chain[..current]
      {
        visited := visited + [chain[current]];
        current := current + 1;
      }
    }

    /**
     * `delete_hashtable`: walks bucket 0 to `length - 1` and each chain from
     * its head, releasing every record exactly once.
     */
    method DeleteTable() returns (ghost freed: seq<Person>)
      requires Valid()
      ensures freed == Flatten(store[..])
      ensures |freed| == numElements
    {
      freed := [];
      for i := 0 to length
        invariant freed == Flatten(store[..i])
      {
        ghost var visited := FreeChain(store[i]);
        freed := freed + visited;
        assert store[..i + 1][..i] == store[..i];
      }
      assert store[..length] == store[..];
      FlattenSize(store[..]);
    }
  }
}
