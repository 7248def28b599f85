/** Bytes, NUL-terminated strings and what it means to find one inside another. */
module CStrings {
  import opened Bytes
  import opened Options
  import opened Periods

  /** The contents of a C string: the bytes before its terminating NUL. */
  ghost predicate NulFree(s: seq<Byte>) {
    forall i | 0 <= i < |s| :: s[i] != 0
  }

  /** The byte a pointer to the string s reads at offset i. The precondition is the bounds
      check of every read below: the terminating NUL is the last byte that may be inspected. */
  function At(s: seq<Byte>, i: int): Byte
    requires 0 <= i <= |s|
  {
    if i < |s| then s[i] else 0
  }

  /** x occurs in s at index j. */
  ghost predicate Occurs(s: seq<Byte>, x: seq<Byte>, j: int) {
    0 <= j && j + |x| <= |s| && forall i, k | 0 <= i < |x| && k == j + i :: x[i] == s[k]
  }

  ghost predicate NoneBefore(s: seq<Byte>, x: seq<Byte>, n: int) {
    forall j | 0 <= j < n :: !Occurs(s, x, j)
  }

  /** r is the index of the leftmost occurrence of x in s, or None when there is none. */
  ghost predicate IsLeftmost(s: seq<Byte>, x: seq<Byte>, r: Option<nat>) {
    match r
    case None => forall j :: !Occurs(s, x, j)
    case Some(k) => Occurs(s, x, k) && NoneBefore(s, x, k)
  }

  /** strnlen: the distance from s + from to the NUL, but at most n. */
  method StrNLen(s: seq<Byte>, from: nat, n: nat) returns (k: nat)
    requires NulFree(s) && from <= |s|
    ensures k == if from + n <= |s| then n else |s| - from
  {
    k := 0;
    while k < n && At(s, from + k) != 0
      invariant k <= n && from + k <= |s|
    {
      k := k + 1;
    }
  }

  /** memcmp on a[i..i+n] and b[j..j+n]: the sign of the first difference, 0 if there is none. */
  method MemCmp(a: seq<Byte>, i: nat, b: seq<Byte>, j: nat, n: nat) returns (r: int)
    requires i + n <= |a| && j + n <= |b|
    ensures r == 0 <==> Agree(a, i, b, j, n)
    ensures r != 0 ==> exists k | 0 <= k < n ::
        Agree(a, i, b, j, k) && a[i + k] != b[j + k] && (r < 0 <==> a[i + k] < b[j + k])
  {
    var k := 0;
    while k < n
      invariant k <= n && Agree(a, i, b, j, k)
    {
      if a[i + k] != b[j + k] {
        return if a[i + k] < b[j + k] then -1 else 1;
      }
      k := k + 1;
    }
    return 0;
  }

  /** n with the given power of two set in it. */
  function WithBit(n: nat, bit: nat): (r: nat)
    requires bit > 0
    ensures r >= n && r >= bit
  {
    if n / bit % 2 == 1 then
      assert n / bit >= 1;
      assert n >= n / bit * bit >= bit by { assert n == n / bit * bit + n % bit; assert n / bit * bit >= 1 * bit; }
      n
    else n + bit
  }
}
