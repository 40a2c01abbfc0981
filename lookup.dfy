/**
  The two domain lookups of the domain table: the exact test used by
  search_domnode and the bounded suffix test used by search_subdomnode,
  and the "first entry in ring order that passes the test" searches that
  specify both loops.
 */
module Lookup {
  import opened CStrings

  /**
    The test of search_subdomnode for one stored domain: with n and h the
    bounded lengths of the query and of the domain, compare the domain with
    the trailing h bytes of the query's first n bytes when n > h, and with the
    query from its start otherwise, for the rest of the maxlen budget.
   */
  predicate SubMatch(domain: CStr, name: CStr, maxlen: nat) {
    var n := Strnlen(name, maxlen);
    var h := Strnlen(domain, maxlen);
    var off := if n > h then n - h else 0;
    Strncmp(domain, name[off..], maxlen - off) == 0
  }

  /**
    What the suffix test accepts, in terms of the bounded lengths n of the
    query and h of the domain. When n > h it matches exactly when the
    query's first n bytes end with the domain; when n == h, exactly when
    the two bounded prefixes are byte-equal; when n < h it never matches.
   */
  lemma SubMatchIff(domain: CStr, name: CStr, maxlen: nat)
    ensures var n, h := Strnlen(name, maxlen), Strnlen(domain, maxlen);
      SubMatch(domain, name, maxlen) <==>
        (n > h && name[n - h..n] == domain) || (n == h && name[..n] == domain[..h])
    ensures Strnlen(name, maxlen) < Strnlen(domain, maxlen) ==> !SubMatch(domain, name, maxlen)
  {
    var n, h := Strnlen(name, maxlen), Strnlen(domain, maxlen);
    var off := if n > h then n - h else 0;
    var tail: CStr := name[off..];
    StrncmpZeroIff(domain, tail, maxlen - off);
    if n > h {
      assert h == |domain|;
      assert Strnlen(domain, maxlen - off) == h;
      assert Strnlen(tail, maxlen - off) == h;
      assert tail[..h] == name[n - h..n];
    } else {
      assert domain[..Strnlen(domain, maxlen)] == domain[..h];
      if n < h {
        assert |name[..n]| != |domain[..h]|;
      }
    }
  }

  /**
    Only the first strnlen(name, maxlen) bytes of the query take part in the
    suffix test: a query longer than maxlen is matched on its first maxlen
    bytes.
   */
  lemma SubMatchBounded(domain: CStr, name: CStr, maxlen: nat)
    ensures SubMatch(domain, name, maxlen) <==> SubMatch(domain, name[..Strnlen(name, maxlen)], maxlen)
  {
    var n := Strnlen(name, maxlen);
    var cut: CStr := name[..n];
    assert Strnlen(cut, maxlen) == n;
    SubMatchIff(domain, name, maxlen);
    SubMatchIff(domain, cut, maxlen);
    var h := Strnlen(domain, maxlen);
    if n > h {
      assert cut[n - h..n] == name[n - h..n];
    }
    assert cut[..n] == name[..n];
  }

  /**
    Two instances: with maxlen 5 the query "abcdefgh" matches "de", the end
    of its first five bytes; with maxlen 3 the query "abc" matches "abcd",
    whose first three bytes it equals.
   */
  lemma BoundedMatchExamples()
    ensures SubMatch(Ascii("de"), Ascii("abcdefgh"), 5)
    ensures SubMatch(Ascii("abcd"), Ascii("abc"), 3)
  {
    var q := Ascii("abcdefgh");
    assert Strnlen(q, 5) == 5 && Strnlen(Ascii("de"), 5) == 2;
    SubMatchIff(Ascii("de"), q, 5);
    assert q[3..5] == Ascii("de");
    assert Strnlen(Ascii("abc"), 3) == 3 && Strnlen(Ascii("abcd"), 3) == 3;
    SubMatchIff(Ascii("abcd"), Ascii("abc"), 3);
    assert Ascii("abc")[..3] == Ascii("abcd")[..3];
  }

  /**
    A query made of any prefix followed by a stored domain matches that
    domain, when the whole query fits in maxlen. Nothing requires the
    prefix to end at a label boundary.
   */
  lemma SuffixQueryMatches(prefix: CStr, domain: CStr, maxlen: nat)
    requires |prefix| + |domain| <= maxlen
    ensures SubMatch(domain, prefix + domain, maxlen)
  {
    var name: CStr := prefix + domain;
    SubMatchIff(domain, name, maxlen);
    if |prefix| > 0 {
      assert name[|name| - |domain|..|name|] == domain;
    } else {
      assert name == domain;
    }
  }

  /** The suffix test is not label-aligned: example.com matches badexample.com. */
  lemma NotLabelAligned(maxlen: nat)
    requires maxlen >= 14
    ensures SubMatch(Ascii("example.com"), Ascii("badexample.com"), maxlen)
  {
    var domain := Ascii("example.com");
    var prefix := Ascii("bad");
    assert Ascii("badexample.com") == prefix + domain;
    SuffixQueryMatches(prefix, domain, maxlen);
  }

  /**
    Position of the first stored domain equal to name (the strcmp test),
    or |domains| when there is none.
   */
  function FindExact(domains: seq<CStr>, name: CStr): (k: nat)
    ensures k <= |domains|
    ensures k < |domains| ==> domains[k] == name
    ensures forall j :: 0 <= j < k ==> domains[j] != name
  {
    if domains == [] then 0
    else if domains[0] == name then 0
    else 1 + FindExact(domains[1..], name)
  }

  /**
    Position of the first stored domain that passes the suffix test for
    name, or |domains| when there is none.
   */
  function FindSub(domains: seq<CStr>, name: CStr, maxlen: nat): (k: nat)
    ensures k <= |domains|
    ensures k < |domains| ==> SubMatch(domains[k], name, maxlen)
    ensures forall j :: 0 <= j < k ==> !SubMatch(domains[j], name, maxlen)
  {
    if domains == [] then 0
    else if SubMatch(domains[0], name, maxlen) then 0
    else 1 + FindSub(domains[1..], name, maxlen)
  }

  /**
    A query ending in a stored domain resolves to that entry or to an
    earlier one in ring order, never to the default.
   */
  lemma SuffixQueryFound(domains: seq<CStr>, prefix: CStr, k: nat, maxlen: nat)
    requires k < |domains| && |prefix| + |domains[k]| <= maxlen
    ensures FindSub(domains, prefix + domains[k], maxlen) <= k
  {
    SuffixQueryMatches(prefix, domains[k], maxlen);
  }
}
