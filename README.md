# dnrd domain table, in Dafny

This project models the domain table of dnrd, a small forwarding DNS server.
The table is taken from `dnrd/src/domnode.c`. It is a circular singly-linked
list of domain entries. Its head node stands for the default domain, and
every other entry holds a domain name and its own pool of upstream servers.
The model covers:

- the life cycle of the table: allocate a node, initialise the table, insert
  after an anchor, delete after an anchor, destroy a node, empty the table,
  destroy the table, and add a domain after an anchor;
- the two lookups: the exact `search_domnode` and the bounded suffix
  `search_subdomnode`;
- the failover of an entry's server pool: `next_active` and
  `deactivate_current`.

Modules:

- `Options`: `Option`, where `None` stands for a NULL pointer.
- `CStrings`: the libc functions the lookups use. These are `strnlen`,
  `strncmp` and `strcmp` over NUL-free byte strings.
- `NameCopy`: the copy of the name that `add_domain` makes (see Findings).
- `Lookup`: the match test of each lookup, the "first matching entry in ring
  order" functions that specify both search loops, and what the suffix test
  accepts.
- `Failover`: the failover scan as functions over the pool's inactive
  stamps, and lemmas about where the scan lands.
- `Domnode`: the classes.
  - `DomNode` is one entry. Its `current` field is updated in place, and so
    are the stamps in its `srvlist` array.
  - `DomList` is the table. Its nodes live in an arena (`nodes`), and each
    handle's link lives in `next`. A ghost `Ring` lists the cycle through the
    head (handle 0) in ring order. A ghost `Freed` set records the handles
    that have been released.

`DomList.Valid()` is the invariant that every table operation keeps:

- the links of `Ring` form a single cycle through the head;
- every link names a node of the arena;
- the head holds no domain;
- no node in the cycle has been freed.

The search methods are specified through `FindExact` and `FindSub` over
`Domains()`, which is the list of names in ring order. Failover is specified
through `NextActiveOf`.

`next_active` (domnode.c:141-174) starts its scan at the successor of
`current`, or at the successor of the pool head when `current` is NULL
(domnode.c:151-156). So whenever another server is active, each call moves
`current` to the first active server after it in ring order, and an active
`current` is kept only when it is the only active server. `Failover.NextActiveMovesOn` and
`Failover.NextActiveIsStartIff` state this.

## Model

| member | source | states |
|---|---|---|
| CStrings.Strnlen | dnrd/src/domnode.c:133 | the bounded length is at most the string's length and at most maxlen, and it equals one of the two |
| CStrings.StrcmpZeroIff | dnrd/src/domnode.c:117 | strcmp returns zero exactly when the two strings are equal |
| CStrings.StrncmpZeroIff | dnrd/src/domnode.c:136 | strncmp with bound k returns zero exactly when the two strings cut to strnlen(·, k) are equal |
| CStrings.Strncmp | dnrd/src/domnode.c:136 | strncmp as the loop libc runs: compare at most k bytes, stopping at the first difference (giving the byte difference) or at a common NUL (giving zero) |
| CStrings.Strcmp | dnrd/src/domnode.c:117 | strcmp as the loop libc runs: compare up to the first difference (giving the byte difference) or a common NUL (giving zero) |
| Lookup.SubMatch | dnrd/src/domnode.c:133-136 | the suffix test for one entry, transcribed: n and h are the strnlen bounds of query and domain, the query is entered at offset n - h when n > h and at 0 otherwise, and strncmp compares with bound maxlen minus that offset |
| Lookup.SubMatchIff | dnrd/src/domnode.c:133-136 | with n and h the strnlen(·, maxlen) lengths of query and domain: when n > h the test accepts exactly when the query's first n bytes end with the domain; when n == h, exactly when the two bounded prefixes are equal; when n < h it never accepts |
| Lookup.SubMatchBounded | dnrd/src/domnode.c:133-136 | only the query's first strnlen(name, maxlen) bytes matter: the test accepts the query exactly when it accepts that prefix |
| Lookup.BoundedMatchExamples | dnrd/src/domnode.c:133-136 | with maxlen 5, "abcdefgh" matches a stored "de"; with maxlen 3, "abc" matches a stored "abcd" |
| Lookup.SuffixQueryMatches | dnrd/src/domnode.c:122-136 | a query that is any prefix followed by a stored domain, and fits in maxlen, matches that domain |
| Lookup.NotLabelAligned | dnrd/src/domnode.c:133-136 | the suffix test is not label-aligned: badexample.com matches a stored example.com |
| Lookup.FindExact | dnrd/src/domnode.c:116-119 | the result is the position of the first stored domain equal to the name, or the list's length when none is equal |
| Lookup.FindSub | dnrd/src/domnode.c:132-138 | the result is the position of the first stored domain that passes the suffix test, or the list's length when none passes |
| Lookup.SuffixQueryFound | dnrd/src/domnode.c:132-138 | a query made of a prefix followed by the k-th domain is matched at position k or earlier |
| Failover.StartOf | dnrd/src/domnode.c:151-155 | the scan's starting point: current, or the pool head (index 0) when current is NULL |
| Failover.NextActiveOf | dnrd/src/domnode.c:156-157 | the scan of next_active from a starting point, begun at the start's successor; a result is an active server |
| Failover.Deactivated | dnrd/src/domnode.c:180-181 | the stamps after deactivate_current: current's stamp becomes now, every other stamp is kept |
| Failover.Failovers | dnrd/src/domnode.c:179-186 | the results of k successive deactivate_current calls, each stamping the server the previous one selected; there are exactly k of them |
| Failover.Scan | dnrd/src/domnode.c:156-157 | the scan from s finds an active server that is no earlier than s in ring order from start, with no active server between s and it; it finds none exactly when every server from s round to start is inactive |
| Failover.NextActiveFirst | dnrd/src/domnode.c:151-157 | next_active's choice is absent exactly when every server is inactive; otherwise it is the first active server after start in ring order |
| Failover.NextActiveIsStartIff | dnrd/src/domnode.c:156-157 | the scan returns its own starting server exactly when that server is active and no other server is |
| Failover.NextActiveMovesOn | dnrd/src/domnode.c:156-157 | when some other server is active, the scan returns a server and never its starting server |
| Failover.ActiveFrom | dnrd/src/domnode.c:156 | lists active servers only, at or after lo, in increasing ring order |
| Failover.ActiveFromHas | dnrd/src/domnode.c:156 | a server is in the list from lo exactly when it is at or after lo and active |
| Failover.ActiveFromStamp | dnrd/src/domnode.c:181 | stamping a server before lo leaves the active servers from lo unchanged |
| Failover.NextActiveAfterInactive | dnrd/src/domnode.c:151-157 | when the servers up to c are all inactive, the scan from c picks the first active server after c, or none |
| Failover.RescanFromHead | dnrd/src/domnode.c:153-157 | with current NULL, the scan starts over from the pool head and picks the first active server of the whole pool |
| Failover.FailoverStep | dnrd/src/domnode.c:179-185 | deactivating the first active server selects the next active one, and the servers still active are those after it |
| Failover.FailoverVisitsInOrder | dnrd/src/domnode.c:179-185 | from the first active server, k successive deactivate_current calls return the 2nd to the k-th active servers in ring order, and then none |
| Domnode.DomNode.constructor | dnrd/src/domnode.c:28-33 | a new entry holds the given domain and pool, with no current server |
| Domnode.DomNode.NextActive | dnrd/src/domnode.c:145-174 | current and the result become the scan's choice from the old current, or from the pool head when it was NULL; a result is an active server and never the pool head |
| Domnode.DomNode.DeactivateCurrent | dnrd/src/domnode.c:179-186 | the old current, if any, is stamped with now and nothing else is stamped; the result and current are the scan's choice from the old current |
| Domnode.CycleInsert | dnrd/src/domnode.c:51-55 | linking p after the i-th node of a cycle, where p takes over that node's link, gives a single cycle with p inserted at position i + 1 |
| Domnode.CycleDelete | dnrd/src/domnode.c:60-64 | relinking the i-th node past its successor gives a single cycle without that successor |
| Domnode.CycleSelfLoop | dnrd/src/domnode.c:81 | the head links to itself exactly when the cycle holds only the head |
| Domnode.NamesInsert | dnrd/src/domnode.c:95-109 | inserting an appended node p keeps every entry named exactly when p is named; inserted right after the head, p's name comes first |
| Domnode.DomList.constructor | dnrd/src/domnode.c:41-45 | a new table is only its head, linked to itself, with no domains |
| Domnode.DomList.AllocDomnode | dnrd/src/domnode.c:28-34 | the new node is fresh, outside the table, linked to itself, and holds the given domain and pool with no current server |
| Domnode.DomList.InsDomnode | dnrd/src/domnode.c:51-55 | p's link becomes list's old link and list's link becomes p; no other link changes; the ring gains p right after list; the result is p |
| Domnode.DomList.DelDomnode | dnrd/src/domnode.c:60-64 | the result is list's successor and list is relinked past it; the ring loses exactly that node; on a table holding only its head, nothing changes and the head is returned |
| Domnode.DomList.DestroyDomnode | dnrd/src/domnode.c:67-76 | the node is released and NULL is returned; destroying NULL releases nothing |
| Domnode.DomList.EmptyDomlist | dnrd/src/domnode.c:79-84 | every entry other than the head is released, the head links to itself again, and no other link changes |
| Domnode.DomList.DestroyDomlist | dnrd/src/domnode.c:87-91 | every node of the table is released, the head included, the ring is back to the head alone with the head linked to itself, and NULL is returned |
| Domnode.DomList.AddDomain | dnrd/src/domnode.c:95-109 | the new node holds the name cut to strnlen(name, maxlen) bytes, or no name for NULL, and is linked in right after list; added after the head, its domain is found first |
| Domnode.DomList.SearchDomnode | dnrd/src/domnode.c:112-120 | a NULL name gives the head; otherwise the result is the first entry after the head, in ring order, whose domain equals the name, and NULL (never the head) when there is none |
| Domnode.DomList.SearchSubdomnode | dnrd/src/domnode.c:125-139 | a NULL name gives the head; otherwise the result is the first entry after the head, in ring order, that passes the suffix test, and the head when there is none |
| NameCopy.NameBufferSize | dnrd/src/domnode.c:102 | the size add_domain allocates: strnlen(name, maxlen) + 2 bytes |
| NameCopy.StrncpyBytes | dnrd/src/domnode.c:103 | strncpy writes exactly n bytes: the source up to its end or n, then zero bytes |
| NameCopy.StrncpyOverrun | dnrd/src/domnode.c:102-103 | when the name is more than two bytes shorter than maxlen, the copy writes past the buffer |
| NameCopy.StrncpyOverrunExample | dnrd/src/domnode.c:102-103 | copying "a" with maxlen 200 writes 200 bytes into a 3-byte buffer |
| NameCopy.CopyName | dnrd/src/domnode.c:101-103 | the intended copy is the name cut to strnlen(name, maxlen) bytes, followed by one zero byte |
| NameCopy.CopyNameFits | dnrd/src/domnode.c:101-103 | the intended copy fits the allocated buffer and agrees with what strncpy writes up to its first zero byte; a name of maxlen bytes or more is copied by strncpy with no terminating zero |
| NameCopy.StoredName | dnrd/src/domnode.c:101-103 | the string the intended copy holds is the name cut to strnlen(name, maxlen) bytes |

## Left out

- Logging (`log_debug`, `log_msg`) and the `DEBUG` block of `next_active` print messages and change nothing, so they are not modelled.
- Memory management is modelled by the ghost `Freed` set. Releasing a node stands for freeing the node, its name buffer and its server pool. The arena never shrinks.
- `time(NULL)` becomes the parameter `now`, which is required to be positive, as any real time stamp after 1970 is.
- Server addresses are not part of the model. A server pool is an array of the servers' inactive stamps.
- The pool's ring order is modelled as index order, with the pool's own head at index 0.
- `alloc_srvnode`, `destroy_srvlist` and the rest of `srvnode.c` are not part of this model. The pool an entry gets is passed in as `srvlist`. Nothing requires it to be distinct from other entries' pools, so in the model two entries may share one pool array, whereas `alloc_domnode` gives every entry a fresh pool; no proved property depends on pools being distinct.
- The pool head's stamp is assumed to be nonzero. Without that, `next_active` could select the pool head, which is not a server.
- `allocate` (in `lib.h`, which is not part of this model) is assumed to zero memory. So a new entry starts with no current server, and a name of `maxlen` bytes or more, which `strncpy` copies with no terminating zero (`NameCopy.CopyNameFits`), is still terminated by the zeroed spare bytes of its buffer.
- Domnode.DomList.SearchDomnode: the NULL-head case (head == NULL gives NULL) is not modelled, because a `DomList` always has its head.
- Domnode.DomList.SearchSubdomnode: the NULL-head case is not modelled either, for the same reason.
- Both search methods require every entry after the head to hold a name. `search_domnode` and `search_subdomnode` would dereference NULL on an unnamed entry.
- `maxlen` is an `int` in C, and a negative value would make `strnlen` take a huge bound. The model takes `maxlen` as a `nat`.
- `search_subdomnode` matches a query longer than `maxlen` on its first `maxlen` bytes only (`Lookup.SubMatchBounded`). The model keeps this behaviour; it does not claim that such a query ends with the matched domain.
- `strcmp` and `strncmp` return byte differences in this model. The C functions only promise the sign, and the code only tests for zero.
- An entry's domain is fixed when the node is allocated. `add_domain` writes the domain before it links the node in, so the model passes the domain to `AllocDomnode`.
- Domnode.DomList.AddDomain: it copies the name the way `NameCopy.StoredName` does, not byte by byte with `strncpy`. It does not model the overrun described under Findings.
- Domnode.DomList.AddDomain: the ensures about `Domains()` is stated only for insertion after the head. That is the only place the table inserts, and there the new domain is listed first.
- Domnode.DomList.DelDomnode: it requires that list's successor not be the head of a table holding other entries. C would unlink the head there, and no caller does that.
- Domnode.DomList.EmptyDomlist: it works from the head, as `destroy_domlist` calls it. The C function has no return statement, so its result is undefined. The model returns nothing.
- Failover.FailoverVisitsInOrder: it covers failover that starts from the first active server, which is the state after a rescan from the pool head. Other starting points follow from NextActiveFirst one call at a time.
- Concurrency is not modelled. The C code assumes one thread per entry.

## Findings

| source | as written | input that shows it | evidently intended | confidence | as-written member | corrected member |
|---|---|---|---|---|---|---|
| dnrd/src/domnode.c:102-103 | the buffer is strnlen(name, maxlen) + 2 bytes, and strncpy(p->domain, name, maxlen) always writes maxlen bytes, padding with zeros | name "a", maxlen 200: 200 bytes are written into a 3-byte buffer | copy strnlen(name, maxlen) bytes and one terminating zero, which fits the buffer | high (not executed) | NameCopy.StrncpyOverrun | NameCopy.CopyNameFits |
