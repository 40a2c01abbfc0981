/**
  The domain table of the DNS forwarder: a circular singly-linked list of
  domain entries whose head node stands for the default domain, the two
  lookups over it, and the failover of an entry's upstream server pool.

  Nodes live in an arena and are named by their handle (their index in
  `nodes`); `next` holds every node's link. The head is handle 0. The ghost
  `Ring` lists the cycle through the head in ring order.
 */
module Domnode {
  import opened Options
  import opened CStrings
  import opened Lookup
  import opened Failover
  import opened NameCopy

  /**
    A domain entry. `srvlist` holds the inactive stamps of its server pool,
    in ring order, with the pool's own head at index 0 (see Failover);
    `current` is the selected server, NULL when none is known.
   */
  class DomNode {
    const domain: Option<CStr>
    const srvlist: array<int>
    var current: Option<nat>

    /**
      The pool head is never active (its stamp is nonzero) and current, when
      present, names a node of the pool.
     */
    ghost predicate Valid()
      reads this, srvlist
    {
      srvlist.Length >= 1 && srvlist[0] != 0 &&
      (current.Some? ==> current.value < srvlist.Length)
    }

    /** alloc_domnode's initialisation of the node's own fields. */
    constructor (domain: Option<CStr>, srvlist: array<int>)
      requires srvlist.Length >= 1 && srvlist[0] != 0
      ensures Valid()
      ensures this.domain == domain && this.srvlist == srvlist && current == None
    {
      this.domain := domain;
      this.srvlist := srvlist;
      current := None;
    }

    /**
      next_active: walk from current (from the pool head when current is
      NULL) to the next active server, and remember it in current.
     */
    method NextActive() returns (r: Option<nat>)
      requires Valid()
      modifies this
      ensures Valid() && current == r
      ensures r == NextActiveOf(srvlist[..], StartOf(old(current)))
      ensures r.Some? ==> 0 < r.value < srvlist.Length && srvlist[r.value] == 0
    {
      var n := srvlist.Length;
      var start: nat := if current.Some? then current.value else 0;
      var s: nat := Succ(start, n);
      while srvlist[s] != 0 && s != start
        invariant s < n
        invariant Scan(srvlist[..], start, s) == NextActiveOf(srvlist[..], start)
        decreases n - Rank(start, s, n)
      {
        s := Succ(s, n);
      }
      if srvlist[s] != 0 {
        r := None;
      } else {
        r := Some(s);
      }
      current := r;
    }

    /**
      deactivate_current: stamp current, if any, with the time now, then
      select the next active server.
     */
    method DeactivateCurrent(now: int) returns (r: Option<nat>)
      requires Valid() && now > 0
      modifies this, srvlist
      ensures Valid() && current == r
      ensures srvlist[..] == Deactivated(old(srvlist[..]), old(current), now)
      ensures r == NextActiveOf(srvlist[..], StartOf(old(current)))
    {
      if current.Some? {
        srvlist[current.value] := now;
      }
      r := NextActive();
    }
  }

  /** The set of handles in a sequence of handles. */
  ghost function Elems(hs: seq<nat>): (xs: set<nat>) {
    set x | x in hs
  }

  /** Appending p and then updating position |links| is appending the new value. */
  lemma UpdateAppended(links: seq<nat>, p: nat, v: nat)
    ensures (links + [p])[|links| := v] == links + [v]
  {
  }

  /** A second update of the same link overrides the first. */
  lemma UpdateTwice(links: seq<nat>, h: nat, x: nat, y: nat)
    requires h < |links|
    ensures links[h := x][h := y] == links[h := y]
  {
  }

  /** The position of x in hs. */
  ghost function IndexOf(hs: seq<nat>, x: nat): (i: nat)
    requires x in hs
    ensures i < |hs| && hs[i] == x
  {
    if hs[0] == x then 0 else 1 + IndexOf(hs[1..], x)
  }

  /**
    The links next take every node of ring, each exactly once, to the one
    after it, and the last back to the first: ring is one closed cycle.
   */
  ghost predicate IsCycle(next: seq<nat>, ring: seq<nat>) {
    |ring| >= 1 &&
    (forall k :: 0 <= k < |ring| ==> ring[k] < |next|) &&
    (forall k, l :: 0 <= k < l < |ring| ==> ring[k] != ring[l]) &&
    (forall k :: 0 <= k < |ring| - 1 ==> next[ring[k]] == ring[k + 1]) &&
    next[ring[|ring| - 1]] == ring[0]
  }

  /**
    Linking a node p that is not on the cycle right after its i-th node
    (p takes over that node's successor) gives one cycle with p inserted.
   */
  lemma CycleInsert(next: seq<nat>, ring: seq<nat>, i: nat, p: nat)
    requires IsCycle(next, ring) && i < |ring| && p < |next| && p !in ring
    ensures IsCycle(next[p := next[ring[i]]][ring[i] := p], ring[..i + 1] + [p] + ring[i + 1..])
  {
    var next' := next[p := next[ring[i]]][ring[i] := p];
    var ring' := ring[..i + 1] + [p] + ring[i + 1..];
    assert |ring'| == |ring| + 1;
    assert forall k :: 0 <= k <= i ==> ring'[k] == ring[k];
    assert ring'[i + 1] == p;
    assert forall k :: i + 1 < k < |ring'| ==> ring'[k] == ring[k - 1];
    InsertDistinct(ring, i, p);
    forall k | 0 <= k < |ring'| - 1
      ensures next'[ring'[k]] == ring'[k + 1]
    {
      if k < i {
        assert ring[k] != ring[i] && ring[k] != p;
      } else if k > i + 1 {
        assert ring[k - 1] != ring[i] && ring[k - 1] != p;
      }
    }
    if i < |ring| - 1 {
      assert ring[|ring| - 1] != ring[i] && ring[|ring| - 1] != p;
    }
  }

  /** Inserting a handle not in a sequence without repeats gives one without repeats. */
  lemma InsertDistinct(ring: seq<nat>, i: nat, p: nat)
    requires i < |ring| && p !in ring
    requires forall k, l :: 0 <= k < l < |ring| ==> ring[k] != ring[l]
    ensures var ring' := ring[..i + 1] + [p] + ring[i + 1..];
      forall k, l :: 0 <= k < l < |ring'| ==> ring'[k] != ring'[l]
  {
    var ring' := ring[..i + 1] + [p] + ring[i + 1..];
    assert forall k :: 0 <= k <= i ==> ring'[k] == ring[k];
    assert forall k :: i + 1 < k < |ring'| ==> ring'[k] == ring[k - 1];
    forall k, l | 0 <= k < l < |ring'|
      ensures ring'[k] != ring'[l]
    {
      if l == i + 1 {
        assert ring'[k] in ring;
      } else if k == i + 1 {
        assert ring'[l] in ring;
      }
    }
  }

  /** Relinking the i-th node of a cycle past its successor removes that successor. */
  lemma CycleDelete(next: seq<nat>, ring: seq<nat>, i: nat)
    requires IsCycle(next, ring) && i + 1 < |ring|
    ensures IsCycle(next[ring[i] := next[ring[i + 1]]], ring[..i + 1] + ring[i + 2..])
    ensures ring[i + 1] !in ring[..i + 1] + ring[i + 2..]
  {
    var next' := next[ring[i] := next[ring[i + 1]]];
    var ring' := ring[..i + 1] + ring[i + 2..];
    assert |ring'| == |ring| - 1;
    assert forall k :: 0 <= k <= i ==> ring'[k] == ring[k];
    assert forall k :: i < k < |ring'| ==> ring'[k] == ring[k + 1];
    forall k, l | 0 <= k < l < |ring'|
      ensures ring'[k] != ring'[l]
    {
      if k > i {
        assert ring[k + 1] != ring[l + 1];
      } else if l > i {
        assert ring[k] != ring[l + 1];
      }
    }
    forall k | 0 <= k < |ring'| - 1
      ensures next'[ring'[k]] == ring'[k + 1]
    {
      if k < i {
        assert ring[k] != ring[i];
      } else if k > i {
        assert ring[k + 1] != ring[i];
      } else if i + 2 < |ring| {
        assert next[ring[i + 1]] == ring[i + 2];
      }
    }
    if i + 2 < |ring| {
      assert ring[|ring| - 1] != ring[i];
    } else {
      assert next[ring[i + 1]] == ring[0];
    }
  }

  /** The handles on a sequence after inserting p at position i + 1. */
  lemma ElemsInsert(ring: seq<nat>, i: nat, p: nat)
    requires i < |ring|
    ensures Elems(ring[..i + 1] + [p] + ring[i + 1..]) == Elems(ring) + {p}
  {
    assert ring == ring[..i + 1] + ring[i + 1..];
  }

  /** The handles on a sequence without repeats after removing position i + 1. */
  lemma ElemsDelete(ring: seq<nat>, i: nat)
    requires i + 1 < |ring|
    requires ring[i + 1] !in ring[..i + 1] + ring[i + 2..]
    ensures Elems(ring[..i + 1] + ring[i + 2..]) == Elems(ring) - {ring[i + 1]}
  {
    assert ring == ring[..i + 1] + [ring[i + 1]] + ring[i + 2..];
  }

  /** A cycle whose first node links to itself is that node alone. */
  lemma CycleSelfLoop(next: seq<nat>, ring: seq<nat>)
    requires IsCycle(next, ring)
    ensures next[ring[0]] == ring[0] <==> |ring| == 1
  {
    if |ring| > 1 {
      assert ring[0] != ring[1];
    }
  }

  /** Every node of the cycle other than its first holds a domain name. */
  ghost predicate Named(nodes: seq<DomNode>, ring: seq<nat>) {
    |ring| >= 1 && forall k :: 1 <= k < |ring| ==> ring[k] < |nodes| && nodes[ring[k]].domain.Some?
  }

  /** The domain names of the cycle's nodes after its first, in ring order. */
  ghost function Names(nodes: seq<DomNode>, ring: seq<nat>): (ds: seq<CStr>)
    requires Named(nodes, ring)
    ensures |ds| == |ring| - 1
    ensures forall k :: 0 <= k < |ds| ==> Some(ds[k]) == nodes[ring[k + 1]].domain
  {
    seq(|ring| - 1, k requires 0 <= k < |ring| - 1 => nodes[ring[k + 1]].domain.value)
  }

  /**
    Appending node p to the arena and inserting it after the cycle's i-th
    node keeps every entry named exactly when p is named; inserted right
    after the first node, p's name comes first.
   */
  lemma {:induction false} NamesInsert(nodes: seq<DomNode>, nodes': seq<DomNode>, ring: seq<nat>, i: nat, p: nat)
    requires i < |ring| && p < |nodes'| && |nodes| <= |nodes'| && nodes'[..|nodes|] == nodes
    requires forall k :: 0 <= k < |ring| ==> ring[k] < |nodes| && ring[k] != p
    ensures Named(nodes', ring[..i + 1] + [p] + ring[i + 1..]) <==> Named(nodes, ring) && nodes'[p].domain.Some?
    ensures i == 0 && Named(nodes, ring) && nodes'[p].domain.Some? ==>
      Names(nodes', ring[..i + 1] + [p] + ring[i + 1..]) == [nodes'[p].domain.value] + Names(nodes, ring)
  {
    var ring' := ring[..i + 1] + [p] + ring[i + 1..];
    assert forall k :: 0 <= k <= i ==> ring'[k] == ring[k];
    assert ring'[i + 1] == p;
    assert forall k :: i + 1 < k < |ring'| ==> ring'[k] == ring[k - 1];
    assert forall k :: 0 <= k < |ring| ==> nodes'[ring[k]] == nodes[ring[k]];
    if Named(nodes', ring') {
      forall k | 1 <= k < |ring|
        ensures ring[k] < |nodes| && nodes[ring[k]].domain.Some?
      {
        if k <= i {
          assert ring'[k] == ring[k];
        } else {
          assert ring'[k + 1] == ring[k];
        }
      }
    }
    if Named(nodes, ring) && nodes'[p].domain.Some? {
      forall k | 1 <= k < |ring'|
        ensures ring'[k] < |nodes'| && nodes'[ring'[k]].domain.Some?
      {
        if k > i + 1 {
          assert ring'[k] == ring[k - 1];
        }
      }
      if i == 0 {
        var ds := Names(nodes', ring');
        var es := Names(nodes, ring);
        assert |ds| == |es| + 1;
        forall k | 1 <= k < |ds|
          ensures ds[k] == es[k - 1]
        {
          assert Some(ds[k]) == nodes'[ring[k]].domain;
        }
        assert ds == [nodes'[p].domain.value] + es;
      }
    }
  }

  class DomList {
    var nodes: seq<DomNode>
    var next: seq<nat>
    ghost var Ring: seq<nat>
    ghost var Freed: set<nat>

    /**
      The table invariant: the links of Ring's nodes form one cycle through
      the head, the head holds no domain, every link names a node of the
      arena, and no node of the cycle has been freed.
     */
    ghost predicate Valid()
      reads this
    {
      |next| == |nodes| &&
      (forall h :: 0 <= h < |next| ==> next[h] < |nodes|) &&
      IsCycle(next, Ring) && Ring[0] == 0 &&
      nodes[0].domain.None? &&
      (forall h :: h in Freed ==> h < |nodes|) && Freed !! Elems(Ring)
    }

    /** Every entry of the cycle other than the head holds a domain name. */
    ghost predicate NamedEntries()
      reads this
    {
      Named(nodes, Ring)
    }

    /** The domain names of the non-head entries, in ring order. */
    ghost function Domains(): (ds: seq<CStr>)
      reads this
      requires NamedEntries()
      ensures |ds| == |Ring| - 1
      ensures forall k :: 0 <= k < |ds| ==> Some(ds[k]) == nodes[Ring[k + 1]].domain
    {
      Names(nodes, Ring)
    }

    /**
      init_domainlist: a table with only its head, whose link is to itself.
      The head's server pool comes from the pool allocator.
     */
    constructor (srvlist: array<int>)
      requires srvlist.Length >= 1 && srvlist[0] != 0
      ensures Valid() && NamedEntries() && Domains() == []
      ensures |nodes| == 1 && fresh(nodes[0]) && nodes[0].srvlist == srvlist && nodes[0].current == None
      ensures next == [0] && Ring == [0] && Freed == {}
    {
      var head := new DomNode(None, srvlist);
      nodes := [head];
      next := [0];
      Ring := [0];
      Freed := {};
    }

    /**
      alloc_domnode: a new node, outside the table, linked to itself. The
      domain that add_domain writes before linking the node is given here.
     */
    method AllocDomnode(domain: Option<CStr>, srvlist: array<int>) returns (p: nat)
      requires Valid() && srvlist.Length >= 1 && srvlist[0] != 0
      modifies this
      ensures Valid() && p == old(|nodes|) && p !in Ring && p !in Freed
      ensures |nodes| == p + 1 && nodes[..p] == old(nodes) && fresh(nodes[p])
      ensures nodes[p].domain == domain && nodes[p].srvlist == srvlist && nodes[p].current == None
      ensures next == old(next) + [p] && Ring == old(Ring) && Freed == old(Freed)
    {
      var node := new DomNode(domain, srvlist);
      p := |nodes|;
      nodes := nodes + [node];
      next := next + [p];
    }

    /**
      ins_domnode: link node p directly after node list. The cycle stays one
      cycle, now with p right after list; no other link changes.
     */
    method InsDomnode(list: nat, p: nat) returns (r: nat)
      requires Valid() && list in Ring && p < |nodes| && p !in Ring && p !in Freed
      modifies this
      ensures Valid() && r == p && nodes == old(nodes) && Freed == old(Freed)
      ensures next == old(next)[p := old(next)[list]][list := p]
      ensures var i := IndexOf(old(Ring), list);
        Ring == old(Ring)[..i + 1] + [p] + old(Ring)[i + 1..]
      ensures Elems(Ring) == Elems(old(Ring)) + {p}
    {
      ghost var i := IndexOf(Ring, list);
      CycleInsert(next, Ring, i, p);
      ElemsInsert(Ring, i, p);
      next := next[p := next[list]];
      next := next[list := p];
      Ring := Ring[..i + 1] + [p] + Ring[i + 1..];
      r := p;
    }

    /**
      del_domnode: unlink and return the successor of node list. On a table
      that holds only its head, the head itself is returned and nothing
      changes. The successor must not be the head of a larger table.
     */
    method DelDomnode(list: nat) returns (p: nat)
      requires Valid() && list in Ring && (|Ring| == 1 || next[list] != 0)
      modifies this
      ensures Valid() && nodes == old(nodes) && Freed == old(Freed)
      ensures p == old(next)[list] && next == old(next)[list := old(next)[p]]
      ensures old(|Ring|) == 1 ==> p == list && next == old(next) && Ring == old(Ring)
      ensures old(|Ring|) > 1 ==> var i := IndexOf(old(Ring), list);
        i + 1 < old(|Ring|) && p == old(Ring)[i + 1] && p !in Ring &&
        Ring == old(Ring)[..i + 1] + old(Ring)[i + 2..]
      ensures old(|Ring|) > 1 ==> Elems(Ring) == Elems(old(Ring)) - {p}
    {
      ghost var i := IndexOf(Ring, list);
      p := next[list];
      if |Ring| > 1 {
        assert i + 1 < |Ring|;
        CycleDelete(next, Ring, i);
        ElemsDelete(Ring, i);
        Ring := Ring[..i + 1] + Ring[i + 2..];
      } else {
        assert Ring == [0];
      }
      next := next[list := next[p]];
    }

    /**
      destroy_domnode: release node p (with its server pool and name
      buffer); destroying NULL has no effect. Always returns NULL.
     */
    method DestroyDomnode(p: Option<nat>) returns (r: Option<nat>)
      requires p.Some? ==> p.value < |nodes| && p.value !in Freed
      modifies this`Freed
      ensures r == None
      ensures Freed == old(Freed) + (if p.Some? then {p.value} else {})
    {
      if p.Some? {
        Freed := Freed + {p.value};
      }
      r := None;
    }

    /**
      empty_domlist: delete and destroy the head's successor until the head
      links to itself again. Every entry is released; only the head's link
      changes.
     */
    method EmptyDomlist()
      requires Valid()
      modifies this
      ensures Valid() && Ring == [0] && nodes == old(nodes)
      ensures next == old(next)[0 := 0]
      ensures Freed == old(Freed) + (Elems(old(Ring)) - {0})
    {
      ghost var links := next;
      while next[0] != 0
        invariant Valid() && nodes == old(nodes)
        invariant next == links[0 := next[0]]
        invariant Freed + Elems(Ring) == old(Freed) + Elems(old(Ring))
        decreases |Ring|
      {
        CycleSelfLoop(next, Ring);
        ghost var before := next;
        var p := DelDomnode(0);
        UpdateTwice(links, 0, before[0], before[p]);
        var _ := DestroyDomnode(Some(p));
      }
      CycleSelfLoop(next, Ring);
      assert Elems(Ring) == {0};
    }

    /** destroy_domlist: empty the table, then release its head too. */
    method DestroyDomlist() returns (r: Option<nat>)
      requires Valid()
      modifies this
      ensures r == None && nodes == old(nodes) && next == old(next)[0 := 0] && Ring == [0]
      ensures Freed == old(Freed) + Elems(old(Ring))
    {
      EmptyDomlist();
      r := DestroyDomnode(Some(0));
    }

    /**
      add_domain: a new entry after node list, holding the first
      strnlen(name, maxlen) bytes of name, or no name when name is NULL.
      The name is copied as StoredName does, not by the overrunning strncpy.
      Added after the head, the newest domain is found first.
     */
    method AddDomain(list: nat, name: Option<CStr>, maxlen: nat, srvlist: array<int>) returns (p: nat)
      requires Valid() && list in Ring && srvlist.Length >= 1 && srvlist[0] != 0
      modifies this
      ensures Valid() && p == old(|nodes|) && |nodes| == p + 1 && nodes[..p] == old(nodes) && fresh(nodes[p])
      ensures nodes[p].domain == (if name.Some? then Some(name.value[..Strnlen(name.value, maxlen)]) else None)
      ensures nodes[p].srvlist == srvlist && nodes[p].current == None
      ensures next == (old(next) + [old(next)[list]])[list := p] && Freed == old(Freed)
      ensures var i := IndexOf(old(Ring), list);
        Ring == old(Ring)[..i + 1] + [p] + old(Ring)[i + 1..]
      ensures NamedEntries() <==> old(NamedEntries()) && name.Some?
      ensures list == 0 && name.Some? && old(NamedEntries()) ==>
        Domains() == [name.value[..Strnlen(name.value, maxlen)]] + old(Domains())
    {
      var domain: Option<CStr> := None;
      if name.Some? {
        domain := Some(StoredName(name.value, maxlen));
      }
      ghost var ring := Ring;
      ghost var i := IndexOf(Ring, list);
      ghost var links := next;
      ghost var arena := nodes;
      p := AllocDomnode(domain, srvlist);
      UpdateAppended(links, p, links[list]);
      var _ := InsDomnode(list, p);
      NamesInsert(arena, nodes, ring, i, p);
      assert NamedEntries() == Named(nodes, ring[..i + 1] + [p] + ring[i + 1..]);
    }

    /**
      search_domnode: the head when name is NULL; otherwise the first
      non-head entry in ring order whose domain equals name, and NULL (never
      the head) when there is none.
     */
    method SearchDomnode(name: Option<CStr>) returns (r: Option<nat>)
      requires Valid() && (name.Some? ==> NamedEntries())
      ensures name.None? ==> r == Some(0)
      ensures name.Some? ==> r != Some(0)
      ensures name.Some? ==> var k := FindExact(Domains(), name.value);
        r == if k < |Domains()| then Some(Ring[k + 1]) else None
    {
      if name.None? {
        return Some(0);
      }
      var d := next[0];
      ghost var k := 1;
      while d != 0
        invariant 1 <= k <= |Ring|
        invariant d == if k < |Ring| then Ring[k] else 0
        invariant forall j :: 0 <= j < k - 1 ==> Domains()[j] != name.value
        decreases |Ring| - k
      {
        assert Some(Domains()[k - 1]) == nodes[d].domain;
        StrcmpZeroIff(nodes[d].domain.value, name.value);
        if Strcmp(nodes[d].domain.value, name.value) == 0 {
          return Some(d);
        }
        d := next[d];
        k := k + 1;
      }
      return None;
    }

    /**
      search_subdomnode: the head when name is NULL; otherwise the first
      non-head entry in ring order whose domain passes the bounded suffix
      test, and the head when there is none. Never NULL.
     */
    method SearchSubdomnode(name: Option<CStr>, maxlen: nat) returns (r: nat)
      requires Valid() && (name.Some? ==> NamedEntries())
      ensures name.None? ==> r == 0
      ensures name.Some? ==> var k := FindSub(Domains(), name.value, maxlen);
        r == if k < |Domains()| then Ring[k + 1] else 0
    {
      if name.None? {
        return 0;
      }
      var d := next[0];
      ghost var k := 1;
      while d != 0
        invariant 1 <= k <= |Ring|
        invariant d == if k < |Ring| then Ring[k] else 0
        invariant forall j :: 0 <= j < k - 1 ==> !SubMatch(Domains()[j], name.value, maxlen)
        decreases |Ring| - k
      {
        assert Some(Domains()[k - 1]) == nodes[d].domain;
        if SubMatch(nodes[d].domain.value, name.value, maxlen) {
          return d;
        }
        d := next[d];
        k := k + 1;
      }
      return 0;
    }
  }
}
