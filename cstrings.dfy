/**
  C strings as byte sequences. A C string is modelled by its bytes up to,
  and without, the terminating NUL, so none of those bytes is zero.
  The libc functions used by the domain lookups are modelled here.
 */
module CStrings {

  newtype byte = x: int | 0 <= x < 256

  predicate NulFree(s: seq<byte>) {
    forall i :: 0 <= i < |s| ==> s[i] != 0
  }

  /** The contents of a NUL-terminated string. */
  type CStr = s: seq<byte> | NulFree(s)

  /** strnlen(s, maxlen): the length of s, but at most maxlen. */
  function Strnlen(s: CStr, maxlen: nat): (n: nat)
    ensures n <= |s| && n <= maxlen
    ensures n == |s| || n == maxlen
  {
    if |s| < maxlen then |s| else maxlen
  }

  /** The byte at position i, or the terminating NUL when i is past the end. */
  function CharAt(s: CStr, i: nat): (c: byte) {
    if i < |s| then s[i] else 0
  }

  /** strncmp(a, b, k): compares at most k bytes, stopping at the first NUL. */
  function Strncmp(a: CStr, b: CStr, k: nat): (d: int)
    decreases k
  {
    if k == 0 then 0
    else if CharAt(a, 0) != CharAt(b, 0) then CharAt(a, 0) as int - CharAt(b, 0) as int
    else if CharAt(a, 0) == 0 then 0
    else Strncmp(a[1..], b[1..], k - 1)
  }

  /** strcmp(a, b): compares up to the first NUL. */
  function Strcmp(a: CStr, b: CStr): (d: int)
    decreases |a|
  {
    if CharAt(a, 0) != CharAt(b, 0) then CharAt(a, 0) as int - CharAt(b, 0) as int
    else if CharAt(a, 0) == 0 then 0
    else Strcmp(a[1..], b[1..])
  }

  /** strcmp reports equality exactly when the two strings are byte-equal. */
  lemma {:induction false} StrcmpZeroIff(a: CStr, b: CStr)
    ensures Strcmp(a, b) == 0 <==> a == b
    decreases |a|
  {
    if |a| > 0 && |b| > 0 && a[0] == b[0] {
      StrcmpZeroIff(a[1..], b[1..]);
      assert a == [a[0]] + a[1..];
      assert b == [b[0]] + b[1..];
    } else if |a| > 0 && |b| > 0 {
      assert a[0] != b[0];
    } else if |a| > 0 {
      assert a[0] != 0;
    } else if |b| > 0 {
      assert b[0] != 0;
    }
  }

  /**
    strncmp(a, b, k) reports equality exactly when the first strnlen(a, k)
    bytes of a equal the first strnlen(b, k) bytes of b.
   */
  lemma {:induction false} StrncmpZeroIff(a: CStr, b: CStr, k: nat)
    ensures Strncmp(a, b, k) == 0 <==> a[..Strnlen(a, k)] == b[..Strnlen(b, k)]
    decreases k
  {
    if k == 0 {
    } else if |a| > 0 && |b| > 0 && a[0] == b[0] {
      StrncmpZeroIff(a[1..], b[1..], k - 1);
      assert a[..Strnlen(a, k)] == [a[0]] + a[1..][..Strnlen(a[1..], k - 1)];
      assert b[..Strnlen(b, k)] == [b[0]] + b[1..][..Strnlen(b[1..], k - 1)];
    } else if |a| > 0 && |b| > 0 {
      assert a[..Strnlen(a, k)][0] != b[..Strnlen(b, k)][0];
    } else if |a| > 0 {
      assert |a[..Strnlen(a, k)]| > 0 && a[0] != 0;
    } else if |b| > 0 {
      assert |b[..Strnlen(b, k)]| > 0 && b[0] != 0;
    }
  }

  /** The bytes of an ASCII string literal without NUL characters. */
  function Ascii(s: string): (r: CStr)
    requires forall i :: 0 <= i < |s| ==> 0 < s[i] as int < 256
    ensures |r| == |s| && forall i :: 0 <= i < |s| ==> r[i] as int == s[i] as int
  {
    seq(|s|, i requires 0 <= i < |s| => (s[i] as int) as byte)
  }
}
