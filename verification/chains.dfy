/**
 * Sequences of names kept in `strcmp` order, and the positions the forward
 * scans of the sorted singly linked list, the sorted doubly linked list and
 * the hash-table chains stop at. The linked structures are proved against
 * these functions; the lemmas here say what the positions mean.
 */
module Chains {
  import opened CStrings

  /** Non-decreasing in `strcmp` order. */
  predicate Sorted(s: seq<Name>) {
    forall i, j :: 0 <= i < j < |s| ==> Le(s[i], s[j])
  }

  /** `s` with `x` spliced in so that it lands at index `k`. */
  function InsertAt<T>(s: seq<T>, k: nat, x: T): seq<T>
    requires k <= |s|
  {
    s[..k] + [x] + s[k..]
  }

  /** `s` with the element at index `k` unlinked. */
  function RemoveAt<T>(s: seq<T>, k: nat): seq<T>
    requires k < |s|
  {
    s[..k] + s[k + 1..]
  }

  /** No element occurs twice: the nodes of a list are distinct objects. */
  ghost predicate Distinct<T>(s: seq<T>) {
    forall i, j :: 0 <= i < j < |s| ==> s[i] != s[j]
  }

  lemma DistinctInsertAt<T>(s: seq<T>, k: nat, x: T)
    requires Distinct(s) && k <= |s| && x !in s
    ensures Distinct(InsertAt(s, k, x))
  {
    var r := InsertAt(s, k, x);
    forall i, j | 0 <= i < j < |r|
      ensures r[i] != r[j]
    {
      if i != k && j != k {
        var i' := if i < k then i else i - 1;
        var j' := if j < k then j else j - 1;
        assert r[i] == s[i'] && r[j] == s[j'];
      } else if i == k {
        assert r[j] == s[j - 1];
      } else {
        assert r[i] == s[i];
      }
    }
  }

  lemma DistinctRemoveAt<T>(s: seq<T>, k: nat)
    requires Distinct(s) && k < |s|
    ensures Distinct(RemoveAt(s, k))
    ensures s[k] !in RemoveAt(s, k)
  {
    var r := RemoveAt(s, k);
    forall i, j | 0 <= i < j < |r|
      ensures r[i] != r[j]
    {
      var i' := if i < k then i else i + 1;
      var j' := if j < k then j else j + 1;
      assert r[i] == s[i'] && r[j] == s[j'];
    }
    forall i | 0 <= i < |r|
      ensures r[i] != s[k]
    {
      var i' := if i < k then i else i + 1;
      assert r[i] == s[i'];
    }
  }

  /** Splicing adds exactly one occurrence and keeps the others in order. */
  lemma InsertAtContents<T>(s: seq<T>, k: nat, x: T)
    requires k <= |s|
    ensures multiset(InsertAt(s, k, x)) == multiset(s) + multiset{x}
    ensures RemoveAt(InsertAt(s, k, x), k) == s
  {
    assert s == s[..k] + s[k..];
    assert InsertAt(s, k, x)[..k] == s[..k];
    assert InsertAt(s, k, x)[k + 1..] == s[k..];
  }

  /** Unlinking removes exactly one occurrence of the unlinked element. */
  lemma RemoveAtContents<T>(s: seq<T>, k: nat)
    requires k < |s|
    ensures multiset(RemoveAt(s, k)) == multiset(s) - multiset{s[k]}
  {
    assert s == s[..k] + [s[k]] + s[k + 1..];
  }

  /**
   * How far `while (next != NULL && strcmp(next->name, key) < 0)` advances:
   * the length of the leading run of `keys` strictly below `key`.
   */
  function ScanLess(keys: seq<Name>, key: Name): (n: nat)
    ensures n <= |keys|
    ensures forall j :: 0 <= j < n ==> Less(keys[j], key)
    ensures n < |keys| ==> !Less(keys[n], key)
  {
    if keys != [] && Less(keys[0], key) then 1 + ScanLess(keys[1..], key) else 0
  }

  /** The scan stops at the one place where the run of smaller keys ends. */
  lemma ScanLessUnique(keys: seq<Name>, key: Name, n: nat)
    requires n <= |keys|
    requires forall j :: 0 <= j < n ==> Less(keys[j], key)
    requires n < |keys| ==> !Less(keys[n], key)
    ensures ScanLess(keys, key) == n
  {
  }

  /**
   * Where the singly linked `insert` (and the hash-table `insert`) puts the
   * new node: at the head when the list is empty or the head is strictly
   * greater, otherwise after the head and after every following node strictly
   * below the key.
   */
  function SplicePoint(keys: seq<Name>, key: Name): (k: nat)
    ensures k <= |keys|
    ensures k == 0 <==> keys == [] || Greater(keys[0], key)
    ensures forall j :: 1 <= j < k ==> Less(keys[j], key)
    ensures 0 < k < |keys| ==> !Less(keys[k], key)
  {
    if keys == [] || Greater(keys[0], key) then 0 else 1 + ScanLess(keys[1..], key)
  }

  /**
   * Where the doubly linked `insert` puts the new node: before the first node
   * strictly greater than the key, or at the end when there is none.
   */
  function ScanNotGreater(keys: seq<Name>, key: Name): (n: nat)
    ensures n <= |keys|
    ensures forall j :: 0 <= j < n ==> !Greater(keys[j], key)
    ensures n < |keys| ==> Greater(keys[n], key)
  {
    if keys != [] && !Greater(keys[0], key) then 1 + ScanNotGreater(keys[1..], key) else 0
  }

  /** The scan stops at the first key strictly above `key`. */
  lemma ScanNotGreaterUnique(keys: seq<Name>, key: Name, n: nat)
    requires n <= |keys|
    requires forall j :: 0 <= j < n ==> !Greater(keys[j], key)
    requires n < |keys| ==> Greater(keys[n], key)
    ensures ScanNotGreater(keys, key) == n
  {
  }

  /** Index of the first occurrence of `x`, or `|s|` when there is none. */
  function FirstIndex(s: seq<Name>, x: Name): (k: nat)
    ensures k <= |s|
    ensures forall j :: 0 <= j < k ==> s[j] != x
    ensures k < |s| ==> s[k] == x
  {
    if s == [] || s[0] == x then 0 else 1 + FirstIndex(s[1..], x)
  }

  /** A search that skipped only non-matches and stopped on a match or at
      the end found the first occurrence. */
  lemma FirstIndexUnique(s: seq<Name>, x: Name, n: nat)
    requires n <= |s|
    requires forall j :: 0 <= j < n ==> s[j] != x
    requires n < |s| ==> s[n] == x
    ensures FirstIndex(s, x) == n
  {
  }

  /** `s` without its first occurrence of `x`; `s` itself when `x` is absent. */
  function RemoveFirst(s: seq<Name>, x: Name): (r: seq<Name>)
    ensures x in s ==> |r| == |s| - 1
    ensures x !in s ==> r == s
  {
    var k := FirstIndex(s, x);
    if k < |s| then RemoveAt(s, k) else s
  }

  lemma RemoveFirstContents(s: seq<Name>, x: Name)
    ensures multiset(RemoveFirst(s, x)) == multiset(s) - multiset{x}
    ensures x !in s ==> RemoveFirst(s, x) == s
  {
    var k := FirstIndex(s, x);
    if k < |s| {
      RemoveAtContents(s, k);
    } else {
      assert x !in s;
      assert multiset(s)[x] == 0;
    }
  }

  /** Splicing a key between a neighbour at or below it and one at or above
      it keeps a sorted sequence sorted. */
  lemma {:induction false} InsertSorted(s: seq<Name>, k: nat, x: Name)
    requires Sorted(s) && k <= |s|
    requires 0 < k ==> Le(s[k - 1], x)
    requires k < |s| ==> Le(x, s[k])
    ensures Sorted(InsertAt(s, k, x))
  {
    var r := InsertAt(s, k, x);
    forall i, j | 0 <= i < j < |r|
      ensures Le(r[i], r[j])
    {
      if j < k {
        assert r[i] == s[i] && r[j] == s[j];
      } else if j == k {
        if i < k - 1 {
          LeTrans(s[i], s[k - 1], x);
        }
      } else if i == k {
        if j - 1 > k {
          LeTrans(x, s[k], s[j - 1]);
        }
      } else if i < k {
        assert r[i] == s[i] && r[j] == s[j - 1];
      } else {
        assert r[i] == s[i - 1] && r[j] == s[j - 1];
      }
    }
  }

  /**
   * The singly linked / hash-chain insertion adds exactly one occurrence of
   * the key and keeps a sorted sequence sorted.
   */
  lemma SplicePointSorted(keys: seq<Name>, key: Name)
    ensures multiset(InsertAt(keys, SplicePoint(keys, key), key)) == multiset(keys) + multiset{key}
    ensures Sorted(keys) ==> Sorted(InsertAt(keys, SplicePoint(keys, key), key))
  {
    var k := SplicePoint(keys, key);
    InsertAtContents(keys, k, key);
    if !Sorted(keys) {
      return;
    }
    if 0 < k {
      NotLessIsGe(keys[0], key);
      NotLessIsGe(keys[k - 1], key);
    }
    if k < |keys| {
      NotLessIsGe(keys[k], key);
    }
    InsertSorted(keys, k, key);
  }

  /**
   * The doubly linked insertion point keeps a sorted sequence sorted and
   * puts the new key after every existing key at or below it, equal keys
   * included, and before every key above it.
   */
  lemma ScanNotGreaterSorted(keys: seq<Name>, key: Name)
    requires Sorted(keys)
    ensures Sorted(InsertAt(keys, ScanNotGreater(keys, key), key))
    ensures forall j :: 0 <= j < ScanNotGreater(keys, key) ==> Le(keys[j], key)
    ensures forall j :: ScanNotGreater(keys, key) <= j < |keys| ==> Less(key, keys[j])
  {
    var n := ScanNotGreater(keys, key);
    forall j | 0 <= j < n
      ensures Le(keys[j], key)
    {
      NotLessIsGe(keys[j], key);
    }
    forall j | n <= j < |keys|
      ensures Less(key, keys[j])
    {
      StrCmpFlip(keys[n], key);
      if j > n {
        LessLeTrans(key, keys[n], keys[j]);
      }
    }
    InsertSorted(keys, n, key);
  }

  /**
   * The doubly linked insertion adds exactly one occurrence of the key and
   * keeps a sorted sequence sorted.
   */
  lemma ScanNotGreaterKeeps(keys: seq<Name>, key: Name)
    ensures multiset(InsertAt(keys, ScanNotGreater(keys, key), key)) == multiset(keys) + multiset{key}
    ensures Sorted(keys) ==> Sorted(InsertAt(keys, ScanNotGreater(keys, key), key))
  {
    InsertAtContents(keys, ScanNotGreater(keys, key), key);
    if Sorted(keys) {
      ScanNotGreaterSorted(keys, key);
    }
  }

  /** Unlinking any element keeps a sorted sequence sorted. */
  lemma RemoveAtSorted(s: seq<Name>, k: nat)
    requires Sorted(s) && k < |s|
    ensures Sorted(RemoveAt(s, k))
  {
    var r := RemoveAt(s, k);
    forall i, j | 0 <= i < j < |r|
      ensures Le(r[i], r[j])
    {
      var i' := if i < k then i else i + 1;
      var j' := if j < k then j else j + 1;
      assert r[i] == s[i'] && r[j] == s[j'];
    }
  }

  /** Removing a first occurrence keeps a sorted sequence sorted. */
  lemma RemoveFirstSorted(s: seq<Name>, x: Name)
    requires Sorted(s)
    ensures Sorted(RemoveFirst(s, x))
  {
    if FirstIndex(s, x) < |s| {
      RemoveAtSorted(s, FirstIndex(s, x));
    }
  }

  /**
   * Where the singly linked `delete_node` looks for `key`: the head when it
   * matches, otherwise the node the `strcmp(next, key) < 0` scan stops at.
   */
  function ProbePoint(keys: seq<Name>, key: Name): (k: nat)
    ensures k <= |keys|
    ensures k == 0 <==> keys == [] || keys[0] == key
    ensures forall j :: 1 <= j < k ==> Less(keys[j], key)
    ensures 0 < k < |keys| ==> !Less(keys[k], key)
  {
    if keys == [] || keys[0] == key then 0 else 1 + ScanLess(keys[1..], key)
  }

  /**
   * On a sorted sequence the early-stopping probe is a membership test that
   * lands on the first occurrence: the scan cannot stop before an occurrence
   * nor skip past one.
   */
  lemma ProbeFindsFirst(keys: seq<Name>, key: Name)
    requires Sorted(keys)
    ensures (ProbePoint(keys, key) < |keys| && keys[ProbePoint(keys, key)] == key) <==> key in keys
    ensures key in keys ==> ProbePoint(keys, key) == FirstIndex(keys, key)
  {
    var k := ProbePoint(keys, key);
    if keys != [] && keys[0] != key {
      // Every key before the stop is below `key`, so none of them is `key`.
      forall j | 0 <= j < k
        ensures keys[j] != key
      {
        if j == 0 {
          assert keys[0] != key;
        } else {
          assert Less(keys[j], key);
        }
      }
      if k < |keys| && keys[k] != key {
        // The stop is strictly above `key`, and so is everything after it.
        NotLessIsGe(keys[k], key);
        StrCmpFlip(keys[k], key);
        forall j | k <= j < |keys|
          ensures keys[j] != key
        {
          if j > k {
            LessLeTrans(key, keys[k], keys[j]);
          }
        }
        assert key !in keys;
      }
    }
  }
}
