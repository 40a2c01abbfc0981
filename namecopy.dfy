/**
  The copy of a domain name into its own buffer by add_domain. The buffer
  holds strnlen(name, maxlen) + 2 bytes. strncpy always writes exactly
  maxlen bytes: the bytes of name before its end or before maxlen, then
  zero bytes up to maxlen.
 */
module NameCopy {
  import opened CStrings

  /** The size add_domain allocates for the copy of name. */
  function NameBufferSize(name: CStr, maxlen: nat): (size: nat) {
    Strnlen(name, maxlen) + 2
  }

  /** n zero bytes. */
  function Zeros(n: nat): (z: seq<byte>)
    ensures |z| == n && forall i :: 0 <= i < n ==> z[i] == 0
  {
    if n == 0 then [] else [0] + Zeros(n - 1)
  }

  /** The bytes strncpy(dst, src, n) writes into dst, starting at dst[0]. */
  function StrncpyBytes(src: CStr, n: nat): (w: seq<byte>)
    ensures |w| == n
    ensures w[..Strnlen(src, n)] == src[..Strnlen(src, n)]
    ensures forall i :: Strnlen(src, n) <= i < n ==> w[i] == 0
  {
    var k := Strnlen(src, n);
    src[..k] + Zeros(n - k)
  }

  /**
    The copy as add_domain writes it runs past the buffer whenever the name
    is more than two bytes shorter than maxlen.
   */
  lemma StrncpyOverrun(name: CStr, maxlen: nat)
    requires Strnlen(name, maxlen) + 2 < maxlen
    ensures |StrncpyBytes(name, maxlen)| > NameBufferSize(name, maxlen)
  {
  }

  /** The same, for one name: "a" copied with maxlen 200 writes 200 bytes into 3. */
  lemma StrncpyOverrunExample()
    ensures NameBufferSize(Ascii("a"), 200) == 3
    ensures |StrncpyBytes(Ascii("a"), 200)| == 200
  {
    assert Strnlen(Ascii("a"), 200) == 1;
  }

  /**
    The copy add_domain evidently intends: the bytes of name before its end
    or before maxlen, then one terminating zero byte.
   */
  function CopyName(name: CStr, maxlen: nat): (w: seq<byte>)
    ensures |w| == Strnlen(name, maxlen) + 1 && w[|w| - 1] == 0
    ensures w[..|w| - 1] == name[..Strnlen(name, maxlen)]
  {
    name[..Strnlen(name, maxlen)] + [0]
  }

  /** The string the intended copy holds: name cut to strnlen(name, maxlen) bytes. */
  function StoredName(name: CStr, maxlen: nat): (d: CStr)
    ensures d == name[..Strnlen(name, maxlen)]
  {
    var buffer := CopyName(name, maxlen);
    buffer[..|buffer| - 1]
  }

  /**
    The intended copy fits the buffer, and the string it holds agrees with
    what strncpy leaves before its first zero byte.
   */
  lemma CopyNameFits(name: CStr, maxlen: nat)
    ensures |CopyName(name, maxlen)| < NameBufferSize(name, maxlen)
    ensures Strnlen(name, maxlen) < maxlen ==>
      CopyName(name, maxlen) == StrncpyBytes(name, maxlen)[..Strnlen(name, maxlen) + 1]
    ensures Strnlen(name, maxlen) == maxlen ==> StrncpyBytes(name, maxlen) == name[..maxlen]
  {
    var k := Strnlen(name, maxlen);
    if k < maxlen {
      var w := StrncpyBytes(name, maxlen);
      assert w[..k + 1] == w[..k] + [w[k]];
    }
  }
}
