/**
 * C strings as the five data structures use them: fixed 100-byte name buffers
 * holding NUL-terminated byte strings, compared with `strcmp` (ISO C section
 * 7.24.4.2) and lower-cased with `tolower` in the "C" locale (ISO C section
 * 7.4.2.1).
 */
module CStrings {

  /** Size of every name buffer (`MAX_LEN` / `MAX_LENGTH`). */
  const MAX_LEN: int := 100

  /** One byte of a C string, read as `unsigned char`. */
  type Byte = b: int | 0 <= b < 256

  /** The bytes of a string before its terminating NUL. */
  type Name = seq<Byte>

  /** A name that fits a `MAX_LEN` buffer together with its terminator. */
  predicate IsName(s: Name) {
    |s| < MAX_LEN && forall i :: 0 <= i < |s| ==> s[i] != 0
  }

  /**
   * `strcmp`: compares byte by byte as `unsigned char`; a string that ends
   * first (its NUL is smaller than any other byte) compares lower. ISO C fixes
   * only the sign of the result, so the model returns -1, 0 or 1.
   */
  function StrCmp(a: Name, b: Name): (r: int)
    ensures -1 <= r <= 1
    ensures r == 0 <==> a == b
  {
    if a == [] && b == [] then 0
    else if a == [] then -1
    else if b == [] then 1
    else if a[0] < b[0] then -1
    else if a[0] > b[0] then 1
    else
      assert a == [a[0]] + a[1..] && b == [b[0]] + b[1..];
      StrCmp(a[1..], b[1..])
  }

  /** `strcmp(a, b) < 0` */
  predicate Less(a: Name, b: Name) { StrCmp(a, b) < 0 }

  /** `strcmp(a, b) > 0` */
  predicate Greater(a: Name, b: Name) { StrCmp(a, b) > 0 }

  /** `strcmp(a, b) <= 0`: the non-decreasing order of the sorted chains. */
  predicate Le(a: Name, b: Name) { StrCmp(a, b) <= 0 }

  /** Swapping the operands of `strcmp` flips the sign. */
  lemma {:induction false} StrCmpFlip(a: Name, b: Name)
    ensures StrCmp(b, a) == -StrCmp(a, b)
  {
    if a != [] && b != [] && a[0] == b[0] {
      StrCmpFlip(a[1..], b[1..]);
    }
  }

  /** The order `strcmp` induces is transitive. */
  lemma {:induction false} LeTrans(a: Name, b: Name, c: Name)
    requires Le(a, b) && Le(b, c)
    ensures Le(a, c)
  {
    if a != [] && b != [] && c != [] && a[0] == b[0] == c[0] {
      LeTrans(a[1..], b[1..], c[1..]);
    }
  }

  /** `strcmp` is a total order: two names that are not below one another
      in one direction are in the other. */
  lemma NotLessIsGe(a: Name, b: Name)
    ensures !Less(a, b) <==> Le(b, a)
    ensures !Greater(a, b) <==> Le(a, b)
  {
    StrCmpFlip(a, b);
  }

  /** Mixed transitivity with one strict step. */
  lemma LessLeTrans(a: Name, b: Name, c: Name)
    requires (Less(a, b) && Le(b, c)) || (Le(a, b) && Less(b, c))
    ensures Less(a, c)
  {
    LeTrans(a, b, c);
    if a == c {
      StrCmpFlip(a, b);
    }
  }

  /** `tolower` in the "C" locale: only 'A'..'Z' change. */
  function ToLower(c: Byte): (r: Byte)
    ensures 'A' as int <= c <= 'Z' as int ==> r == c - 'A' as int + 'a' as int
    ensures r != c ==> 'A' as int <= c <= 'Z' as int
    ensures !('A' as int <= r <= 'Z' as int)
  {
    if 'A' as int <= c <= 'Z' as int then c + ('a' as int - 'A' as int) else c
  }

  /** The in-place lower-casing loop of `hash_function`, as a value. */
  function Lower(s: Name): (r: Name)
    ensures |r| == |s|
  {
    if s == [] then [] else [ToLower(s[0])] + Lower(s[1..])
  }

  lemma {:induction false} LowerAt(s: Name, i: int)
    requires 0 <= i < |s|
    ensures Lower(s)[i] == ToLower(s[i])
  {
    if i > 0 {
      LowerAt(s[1..], i - 1);
    }
  }

  /** Lower-casing works character by character, so it distributes over `++`. */
  lemma {:induction false} LowerAppend(a: Name, b: Name)
    ensures Lower(a + b) == Lower(a) + Lower(b)
  {
    if a == [] {
      assert a + b == b;
    } else {
      assert (a + b)[1..] == a[1..] + b;
      LowerAppend(a[1..], b);
    }
  }

  /** Lower-casing twice is lower-casing once. */
  lemma {:induction false} LowerIdempotent(s: Name)
    ensures Lower(Lower(s)) == Lower(s)
  {
    if s != [] {
      LowerIdempotent(s[1..]);
    }
  }

  /** `tolower` never produces or removes a terminating NUL. */
  lemma {:induction false} LowerKeepsNul(s: Name)
    ensures forall i :: 0 <= i < |s| ==> (Lower(s)[i] == 0 <==> s[i] == 0)
  {
    forall i | 0 <= i < |s|
      ensures Lower(s)[i] == 0 <==> s[i] == 0
    {
      LowerAt(s, i);
    }
  }
}
