/**
  The failover scan of next_active as a function on the pool's inactive
  stamps. The pool's server ring is modelled by index order: the head (the
  pool's dummy node) is index 0, the successor of i is i + 1, and the
  successor of the last server is the head again. A stamp of 0 means the
  server is active; any other value is the time it was deactivated.
 */
module Failover {
  import opened Options

  /** The ring link of the server pool: the successor of node s among n nodes. */
  function Succ(s: nat, n: nat): (t: nat)
    requires s < n
    ensures t < n
  {
    if s + 1 == n then 0 else s + 1
  }

  /**
    How many links a walk that starts at start takes to reach j: 1 for the
    successor of start, n for start itself.
   */
  function Rank(start: nat, j: nat, n: nat): (k: nat)
    requires start < n && j < n
    ensures 1 <= k <= n
    ensures k == n <==> j == start
  {
    if j > start then j - start else j + n - start
  }

  /**
    The loop of next_active from node s onwards: skip inactive nodes until an
    active node or start itself is reached; no node when that node is inactive.
   */
  function Scan(inactive: seq<int>, start: nat, s: nat): (r: Option<nat>)
    requires start < |inactive| && s < |inactive|
    ensures r.Some? ==> r.value < |inactive| && inactive[r.value] == 0
    ensures r.Some? ==> Rank(start, s, |inactive|) <= Rank(start, r.value, |inactive|)
    ensures r.Some? ==> forall j ::
      (0 <= j < |inactive| && Rank(start, s, |inactive|) <= Rank(start, j, |inactive|) < Rank(start, r.value, |inactive|))
      ==> inactive[j] != 0
    ensures r.None? ==> forall j ::
      (0 <= j < |inactive| && Rank(start, s, |inactive|) <= Rank(start, j, |inactive|))
      ==> inactive[j] != 0
    decreases |inactive| - Rank(start, s, |inactive|)
  {
    if inactive[s] != 0 && s != start then Scan(inactive, start, Succ(s, |inactive|))
    else if inactive[s] != 0 then None
    else Some(s)
  }

  /** The server next_active selects when its walk starts at start. */
  function NextActiveOf(inactive: seq<int>, start: nat): (r: Option<nat>)
    requires start < |inactive|
    ensures r.Some? ==> r.value < |inactive| && inactive[r.value] == 0
  {
    Scan(inactive, start, Succ(start, |inactive|))
  }

  /** The start of the walk: current, or the pool head when current is NULL. */
  function StartOf(current: Option<nat>): (start: nat) {
    if current.Some? then current.value else 0
  }

  /** The stamps after deactivate_current has stamped current, if any, with now. */
  function Deactivated(inactive: seq<int>, current: Option<nat>, now: int): (stamped: seq<int>)
    requires current.Some? ==> current.value < |inactive|
    ensures |stamped| == |inactive|
    ensures forall j :: 0 <= j < |inactive| ==>
      stamped[j] == (if current == Some(j) then now else inactive[j])
  {
    if current.Some? then inactive[current.value := now] else inactive
  }

  /**
    next_active returns the first active server strictly after the start in
    ring order, and no server only when none is active.
   */
  lemma NextActiveFirst(inactive: seq<int>, start: nat)
    requires start < |inactive|
    ensures var r := NextActiveOf(inactive, start);
      (r.None? <==> forall j :: 0 <= j < |inactive| ==> inactive[j] != 0) &&
      (r.Some? ==>
        (inactive[r.value] == 0 &&
         forall j :: (0 <= j < |inactive| && Rank(start, j, |inactive|) < Rank(start, r.value, |inactive|))
           ==> inactive[j] != 0))
  {
    var r := NextActiveOf(inactive, start);
    assert Rank(start, Succ(start, |inactive|), |inactive|) == 1;
    if r.None? {
      forall j | 0 <= j < |inactive|
        ensures inactive[j] != 0
      {
        assert Rank(start, j, |inactive|) >= 1;
      }
    }
  }

  /** next_active returns its own start only when that is the sole active server. */
  lemma NextActiveIsStartIff(inactive: seq<int>, start: nat)
    requires start < |inactive|
    ensures NextActiveOf(inactive, start) == Some(start) <==>
      inactive[start] == 0 && forall j :: 0 <= j < |inactive| && j != start ==> inactive[j] != 0
  {
    NextActiveFirst(inactive, start);
  }

  /**
    next_active moves off an active current whenever some other server is
    active: the selection is not sticky.
   */
  lemma NextActiveMovesOn(inactive: seq<int>, start: nat, other: nat)
    requires start < |inactive| && other < |inactive| && other != start && inactive[other] == 0
    ensures NextActiveOf(inactive, start).Some?
    ensures NextActiveOf(inactive, start) != Some(start)
  {
    NextActiveFirst(inactive, start);
    NextActiveIsStartIff(inactive, start);
  }

  /** The active servers at index lo and beyond, in ring order from the head. */
  function ActiveFrom(inactive: seq<int>, lo: nat): (act: seq<nat>)
    ensures forall i :: 0 <= i < |act| ==> lo <= act[i] < |inactive| && inactive[act[i]] == 0
    ensures forall i, k :: 0 <= i < k < |act| ==> act[i] < act[k]
    decreases |inactive| - lo
  {
    if lo >= |inactive| then []
    else if inactive[lo] == 0 then [lo] + ActiveFrom(inactive, lo + 1)
    else ActiveFrom(inactive, lo + 1)
  }

  /** The active servers from lo are exactly the servers at lo or beyond with stamp 0. */
  lemma {:induction false} ActiveFromHas(inactive: seq<int>, lo: nat, j: nat)
    ensures j in ActiveFrom(inactive, lo) <==> lo <= j < |inactive| && inactive[j] == 0
    decreases |inactive| - lo
  {
    if lo < |inactive| {
      ActiveFromHas(inactive, lo + 1, j);
    }
  }

  /** The first element of a list of servers, or no server when it is empty. */
  function FirstOf(act: seq<nat>): (r: Option<nat>) {
    if act == [] then None else Some(act[0])
  }

  /** Stamping a server below lo does not change the active servers from lo. */
  lemma {:induction false} ActiveFromStamp(inactive: seq<int>, c: nat, v: int, lo: nat)
    requires c < lo && c < |inactive|
    ensures ActiveFrom(inactive[c := v], lo) == ActiveFrom(inactive, lo)
    decreases |inactive| - lo
  {
    if lo < |inactive| {
      var stamped := inactive[c := v];
      ActiveFromStamp(inactive, c, v, lo + 1);
      assert stamped[lo] == inactive[lo];
      assert ActiveFrom(stamped, lo) == (if stamped[lo] == 0 then [lo] else []) + ActiveFrom(stamped, lo + 1);
      assert ActiveFrom(inactive, lo) == (if inactive[lo] == 0 then [lo] else []) + ActiveFrom(inactive, lo + 1);
    }
  }

  /**
    When no server up to c is active, the walk from c finds the first active
    server after c in index order.
   */
  lemma NextActiveAfterInactive(inactive: seq<int>, c: nat)
    requires c < |inactive|
    requires forall j :: 0 <= j <= c ==> inactive[j] != 0
    ensures NextActiveOf(inactive, c) == FirstOf(ActiveFrom(inactive, c + 1))
  {
    var n := |inactive|;
    var act := ActiveFrom(inactive, c + 1);
    var r := NextActiveOf(inactive, c);
    NextActiveFirst(inactive, c);
    if r.Some? {
      assert r.value > c;
      ActiveFromHas(inactive, c + 1, r.value);
    }
    if act != [] {
      var f := act[0];
      assert c < f && inactive[f] == 0;
      assert r.Some?;
      var k :| 0 <= k < |act| && act[k] == r.value;
      assert f <= r.value;
      assert Rank(c, f, n) == f - c && Rank(c, r.value, n) == r.value - c;
      assert f == r.value;
    }
  }

  /**
    The rescan from the pool head when current is NULL: with the head
    inactive, the first active server in ring order is selected, so a server
    whose stamp was cleared from outside is found again.
   */
  lemma RescanFromHead(inactive: seq<int>)
    requires |inactive| > 0 && inactive[0] != 0
    ensures NextActiveOf(inactive, StartOf(None)) == FirstOf(ActiveFrom(inactive, 0))
  {
    NextActiveAfterInactive(inactive, 0);
    assert ActiveFrom(inactive, 0) == ActiveFrom(inactive, 1);
  }

  /** The results of k successive deactivate_current calls. */
  function Failovers(inactive: seq<int>, current: Option<nat>, now: int, k: nat): (rs: seq<Option<nat>>)
    requires |inactive| > 0 && (current.Some? ==> current.value < |inactive|)
    ensures |rs| == k
    decreases k
  {
    if k == 0 then []
    else
      var stamped := Deactivated(inactive, current, now);
      var r := NextActiveOf(stamped, StartOf(current));
      [r] + Failovers(stamped, r, now, k - 1)
  }

  /** Each server of a list, as a selected server. */
  function Selected(act: seq<nat>): (r: seq<Option<nat>>)
    ensures |r| == |act| && forall i :: 0 <= i < |act| ==> r[i] == Some(act[i])
  {
    seq(|act|, i requires 0 <= i < |act| => Some(act[i]))
  }

  /**
    One deactivate_current call on the first active server c: it becomes
    inactive, the next active server in index order is selected, and the
    active servers that remain are those after c.
   */
  lemma FailoverStep(inactive: seq<int>, c: nat, now: int)
    requires c < |inactive| && inactive[c] == 0 && now != 0
    requires forall j :: 0 <= j < c ==> inactive[j] != 0
    ensures ActiveFrom(inactive, 0) == [c] + ActiveFrom(inactive, c + 1)
    ensures NextActiveOf(inactive[c := now], c) == FirstOf(ActiveFrom(inactive, c + 1))
    ensures ActiveFrom(inactive[c := now], 0) == ActiveFrom(inactive, c + 1)
    ensures ActiveFrom(inactive, c + 1) != [] ==>
      forall j :: c < j < ActiveFrom(inactive, c + 1)[0] ==> inactive[j] != 0
  {
    var stamped := inactive[c := now];
    var rest := ActiveFrom(inactive, c + 1);
    FirstActiveFrom(inactive, c);
    assert forall j :: 0 <= j <= c ==> stamped[j] != 0;
    NextActiveAfterInactive(stamped, c);
    ActiveFromStamp(inactive, c, now, c + 1);
    FirstActiveFrom(stamped, c + 1);
    if rest != [] {
      forall j | c < j < rest[0]
        ensures inactive[j] != 0
      {
        ActiveFromHas(inactive, c + 1, j);
      }
    }
  }

  /**
    Failover visits the active servers in ring order: when current is the
    first active server (as after a rescan from the head) and k servers are
    active, k successive deactivate_current calls with a nonzero time return
    the 2nd, ..., k-th active server and then no server.
   */
  lemma {:induction false} FailoverVisitsInOrder(inactive: seq<int>, c: nat, now: int)
    requires c < |inactive| && inactive[c] == 0 && now != 0
    requires forall j :: 0 <= j < c ==> inactive[j] != 0
    ensures ActiveFrom(inactive, 0) != [] && ActiveFrom(inactive, 0)[0] == c
    ensures var act := ActiveFrom(inactive, 0);
      Failovers(inactive, Some(c), now, |act|) == Selected(act[1..]) + [None]
    decreases |inactive| - c
  {
    var stamped := inactive[c := now];
    var rest := ActiveFrom(inactive, c + 1);
    FailoverStep(inactive, c, now);
    var act := ActiveFrom(inactive, 0);
    assert act[1..] == rest;
    var r := NextActiveOf(stamped, c);
    var tail := Failovers(stamped, r, now, |rest|);
    FailoversUnfold(inactive, Some(c), now, |act|);
    assert Failovers(inactive, Some(c), now, |act|) == [r] + tail;
    if rest == [] {
      assert tail == [] && r == None;
      assert Selected(rest) == [];
    } else {
      var c' := rest[0];
      assert forall j :: 0 <= j < c' ==> stamped[j] != 0;
      FailoverVisitsInOrder(stamped, c', now);
      assert tail == Selected(rest[1..]) + [None];
      SelectedCons(rest);
      assert r == Some(c');
      assert [r] + tail == Selected(rest) + [None];
    }
  }

  /** Selecting the servers of a nonempty list, one at a time. */
  lemma SelectedCons(act: seq<nat>)
    requires act != []
    ensures Selected(act) == [Some(act[0])] + Selected(act[1..])
  {
  }

  /** The first of k > 0 successive calls, followed by the k - 1 others. */
  lemma FailoversUnfold(inactive: seq<int>, current: Option<nat>, now: int, k: nat)
    requires |inactive| > 0 && (current.Some? ==> current.value < |inactive|) && k > 0
    ensures var stamped := Deactivated(inactive, current, now);
      var r := NextActiveOf(stamped, StartOf(current));
      Failovers(inactive, current, now, k) == [r] + Failovers(stamped, r, now, k - 1)
  {
  }

  /** With nothing active below c, the active servers from the head are those from c. */
  lemma {:induction false} FirstActiveFrom(inactive: seq<int>, c: nat)
    requires c <= |inactive|
    requires forall j :: 0 <= j < c ==> inactive[j] != 0
    ensures ActiveFrom(inactive, 0) == ActiveFrom(inactive, c)
    decreases c
  {
    if c > 0 {
      FirstActiveFrom(inactive, c - 1);
    }
  }
}
