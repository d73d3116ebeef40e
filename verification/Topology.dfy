/**
 Which modules a module takes as its neighbours: the k nearest of those it knows,
 by distance and then by identifier.

 Election holds for any distance function; the integer square root that the
 Euclidean metric rests on is a method of its own. `TopologyCtx` updates the
 arrays in place.
 */
module Topology {
  import opened Types

  const K_NEIGHBORS: nat := 7
  const MAX_MODULES: nat := 256
  const INT32_MAX: nat := 0x7FFF_FFFF

  // ------------------------------------------------------------- square root

  /** Division of 32-bit integers, towards zero. */
  function Quotient(a: int, b: int): int
    requires b != 0
  {
    if a >= 0 then (if b > 0 then a / b else -(a / -b)) else (if b > 0 then -(-a / b) else -a / -b)
  }

  predicate IsRoot(r: int, n: int) {
    0 <= r && r * r <= n < (r + 1) * (r + 1)
  }

  lemma NewtonStaysAbove(n: int, x: int)
    requires n >= 0 && x >= 1
    ensures var y := (x + n / x) / 2; n < (y + 1) * (y + 1)
  {
    var q := n / x;
    var y, d := (x + q) / 2, x - (q + 1);
    assert n < x * (q + 1);
    assert d * d >= 0;
    assert (x + q + 1) * (x + q + 1) == d * d + 4 * (x * (q + 1));
    Squares(x + q + 1, 2 * (y + 1));
  }

  lemma Squares(a: int, b: int)
    requires 0 <= a <= b
    ensures a * a <= b * b
  {
    assert b * b - a * a == (b - a) * (b + a);
  }

  /** Newton's iteration, in wrapping 32-bit arithmetic: the floor of the root for
      every n but the largest, where n + 1 wraps. */
  method Isqrt(n: int) returns (r: int)
    requires -0x8000_0000 <= n <= INT32_MAX
    ensures n < 0 ==> r == 0
    ensures n >= 0 ==> (IsRoot(r, n) <==> n < INT32_MAX)
  {
    if n <= 0 { return 0; }
    if n == 1 { return 1; }
    var x := n;
    var y := Quotient(ToInt32(x + 1), 2);
    if n < INT32_MAX {
      NewtonStaysAbove(n, n);
      assert n / n == 1;
    }
    while y < x
      invariant n < INT32_MAX ==> 1 <= x <= n && 1 <= y && n < (x + 1) * (x + 1) && n < (y + 1) * (y + 1)
      invariant n < INT32_MAX ==> y == (x + n / x) / 2
      invariant n == INT32_MAX ==> y == -0x4000_0000 || (x == -0x4000_0000 && y == -0x2000_0000)
      decreases x + 0x8000_0000
    {
      x := y;
      if n < INT32_MAX {
        NewtonStaysAbove(n, x);
        NewtonInRange(n, x);
      }
      y := Quotient(ToInt32(x + Quotient(n, x)), 2);
    }
    if n < INT32_MAX {
      NewtonStops(n, x);
    }
    return x;
  }

  lemma NewtonInRange(n: int, x: int)
    requires 1 <= x <= n < INT32_MAX
    ensures 1 <= n / x && x + n / x <= n + 1
  {
    QuotientBounds(n, x);
    SumBelowProduct(n / x, x);
  }

  lemma QuotientBounds(n: int, x: int)
    requires 1 <= x <= n
    ensures 1 <= n / x && (n / x) * x <= n
  {}

  lemma SumBelowProduct(a: int, b: int)
    requires a >= 1 && b >= 1
    ensures a + b <= a * b + 1
  {
    assert (a - 1) * (b - 1) == a * b - a - b + 1;
    assert (a - 1) * (b - 1) >= 0;
  }

  lemma NewtonStops(n: int, x: int)
    requires n >= 0 && x >= 1 && (x + n / x) / 2 >= x
    ensures x * x <= n
  {
    Quotients(n, x, n / x);
  }

  lemma Quotients(n: int, x: int, q: int)
    requires n >= 0 && x >= 1 && q == n / x && q >= x
    ensures x * x <= n
  {
    assert n == q * x + n % x;
    assert q * x - x * x == (q - x) * x >= 0;
  }

  // ---------------------------------------------------------------- sorting

  datatype Position = Position(x: int, y: int, z: int)

  datatype Entry = Entry(id: ModuleId, distance: int, position: Position)

  predicate Less(a: Entry, b: Entry) {
    if a.distance != b.distance then a.distance < b.distance else a.id < b.id
  }

  predicate Sorted(s: seq<Entry>) {
    forall i, j :: 0 <= i < j < |s| ==> Less(s[i], s[j])
  }

  /** Puts e before every entry at the end of s that it is less than. */
  function Insert(s: seq<Entry>, e: Entry): (r: seq<Entry>)
    ensures |r| == |s| + 1
  {
    if s != [] && Less(e, s[|s| - 1]) then Insert(s[..|s| - 1], e) + [s[|s| - 1]] else s + [e]
  }

  function Sort(s: seq<Entry>): (r: seq<Entry>)
    ensures |r| == |s|
  {
    if s == [] then [] else Insert(Sort(s[..|s| - 1]), s[|s| - 1])
  }

  lemma {:induction false} InsertSorts(s: seq<Entry>, e: Entry)
    requires Sorted(s) && forall i :: 0 <= i < |s| ==> s[i].id != e.id
    ensures Sorted(Insert(s, e))
    ensures forall x :: x in Insert(s, e) <==> x in s || x == e
  {
    InsertAdds(s, e);
    if s != [] && Less(e, s[|s| - 1]) {
      var front, last := s[..|s| - 1], s[|s| - 1];
      InsertSorts(front, e);
      InsertAdds(front, e);
      var r := Insert(front, e);
      forall k | 0 <= k < |r| ensures Less(r[k], last) {
        assert r[k] in front || r[k] == e;
      }
    }
  }

  lemma {:induction false} InsertAdds(s: seq<Entry>, e: Entry)
    ensures forall x :: x in Insert(s, e) <==> x in s || x == e
  {
    if s != [] && Less(e, s[|s| - 1]) {
      InsertAdds(s[..|s| - 1], e);
      assert s == s[..|s| - 1] + [s[|s| - 1]];
    }
  }

  predicate DistinctIds(s: seq<Entry>) {
    forall i, j :: 0 <= i < j < |s| ==> s[i].id != s[j].id
  }

  /** Sorting entries of distinct modules lists the same entries in strict order. */
  lemma {:induction false} SortSorts(s: seq<Entry>)
    requires DistinctIds(s)
    ensures Sorted(Sort(s))
    ensures forall x :: x in Sort(s) <==> x in s
  {
    if s != [] {
      var front, last := s[..|s| - 1], s[|s| - 1];
      SortSorts(front);
      forall i | 0 <= i < |Sort(front)| ensures Sort(front)[i].id != last.id {
        assert Sort(front)[i] in front;
      }
      InsertSorts(Sort(front), last);
      assert s == front + [last];
    }
  }

  lemma {:induction false} InsertAt(s: seq<Entry>, e: Entry, m: nat)
    requires m <= |s| && (forall k :: m <= k < |s| ==> Less(e, s[k]))
    requires m == 0 || !Less(e, s[m - 1])
    ensures Insert(s, e) == s[..m] + [e] + s[m..]
  {
    if m < |s| {
      var front := s[..|s| - 1];
      InsertAt(front, e, m);
      assert front[..m] == s[..m] && front[m..] + [s[|s| - 1]] == s[m..];
    } else {
      assert s[..m] == s && s[m..] == [];
    }
  }

  /** Moves a[i] down to where it belongs in a[..i]. */
  method InsertInPlace(a: array<Entry>, i: nat)
    requires i < a.Length
    modifies a
    ensures a[..i + 1] == Insert(old(a[..i]), old(a[i])) && a[i + 1..] == old(a[i + 1..])
  {
    ghost var was := a[..];
    var key := a[i];
    var j := i - 1;
    while j >= 0 && Less(key, a[j])
      invariant -1 <= j < i
      invariant forall k :: 0 <= k < a.Length && (k <= j || k > i) ==> a[k] == was[k]
      invariant forall k :: j + 1 <= k < i ==> a[k + 1] == was[k] && Less(key, was[k])
    {
      a[j + 1] := a[j];
      j := j - 1;
    }
    a[j + 1] := key;
    Inserted(was[..i], key, j + 1, a[..i + 1]);
  }

  lemma Inserted(s: seq<Entry>, e: Entry, m: nat, r: seq<Entry>)
    requires m <= |s| && |r| == |s| + 1 && (m == 0 || !Less(e, s[m - 1]))
    requires forall k :: m <= k < |s| ==> Less(e, s[k]) && r[k + 1] == s[k]
    requires r[m] == e && forall k :: 0 <= k < m ==> r[k] == s[k]
    ensures r == Insert(s, e)
  {
    InsertAt(s, e, m);
    assert r == s[..m] + [e] + s[m..];
  }

  method SortByDistance(a: array<Entry>, count: nat)
    requires count <= a.Length
    modifies a
    ensures a[..count] == Sort(old(a[..count])) && a[count..] == old(a[count..])
  {
    if count == 0 { return; }
    ghost var was := a[..];
    assert was[..1] == [was[0]] && a[..1] == Sort(was[..1]);
    for i := 1 to count
      invariant a[..i] == Sort(was[..i]) && a[i..] == was[i..]
    {
      InsertInPlace(a, i);
      SortNext(was, i);
    }
  }

  lemma SortNext(s: seq<Entry>, i: nat)
    requires i < |s|
    ensures Sort(s[..i + 1]) == Insert(Sort(s[..i]), s[i])
  {
    var p := s[..i + 1];
    assert p[..|p| - 1] == s[..i] && p[|p| - 1] == s[i];
  }

  // ---------------------------------------------------------------- election

  datatype Health = Unknown | Alive | Suspect | Dead

  datatype Neighbor = Neighbor(
    id: ModuleId, health: Health, lastSeen: nat, distance: int, missed: nat, field: seq<int>)

  /** The distance of another module, by its identifier and position. */
  type Metric = (ModuleId, Position) -> int

  datatype Topo = Topo(
    myId: ModuleId, k: nat, known: seq<ModuleId>, positions: seq<Position>, neighbors: seq<Neighbor>)

  datatype Result = Done | InvalidArg | NoMemory | NotFound

  function Init(myId: ModuleId, k: nat): Topo {
    Topo(myId, k, [], [], [])
  }

  predicate Shaped(t: Topo) {
    |t.known| == |t.positions| <= MAX_MODULES
  }

  /** The position of a module among the known ones, or their number. */
  function FindKnown(known: seq<ModuleId>, id: ModuleId): (r: nat)
    ensures r <= |known| && (r < |known| ==> known[r] == id)
    ensures id !in known[..r] && (r == |known| <==> id !in known)
  {
    if known == [] || known[0] == id then 0 else
    var r := FindKnown(known[1..], id);
    assert known[..r + 1] == [known[0]] + known[1..][..r] && known == [known[0]] + known[1..];
    r + 1
  }

  function FindNeighbor(ns: seq<Neighbor>, id: ModuleId): nat {
    FindBy(ns, (n: Neighbor) => n.id, id)
  }

  lemma FoundAt(ns: seq<Neighbor>, id: ModuleId, i: nat)
    requires i <= |ns| && (i < |ns| ==> ns[i].id == id) && forall j :: 0 <= j < i ==> ns[j].id != id
    ensures i == FindNeighbor(ns, id)
  {}

  function AddToKnown(t: Topo, id: ModuleId, pos: Position): (r: Option<Topo>)
    requires Shaped(t)
  {
    var i := FindKnown(t.known, id);
    if i < |t.known| then Some(t.(positions := t.positions[i := pos]))
    else if |t.known| >= MAX_MODULES then None
    else Some(t.(known := t.known + [id], positions := t.positions + [pos]))
  }

  function Without<T>(s: seq<T>, i: nat): seq<T>
    requires i < |s|
  {
    s[..i] + s[i + 1..]
  }

  function RemoveFromKnown(t: Topo, id: ModuleId): Topo
    requires Shaped(t)
  {
    var i := FindKnown(t.known, id);
    if i < |t.known| then t.(known := Without(t.known, i), positions := Without(t.positions, i)) else t
  }

  /** All known modules but the module itself, with their distances. */
  function Candidates(metric: Metric, myId: ModuleId, known: seq<ModuleId>, positions: seq<Position>): seq<Entry>
    requires |known| == |positions|
  {
    if known == [] then [] else
    var n := |known| - 1;
    Candidates(metric, myId, known[..n], positions[..n])
    + if known[n] == myId then [] else [Entry(known[n], metric(known[n], positions[n]), positions[n])]
  }

  /** A module elected again keeps what is stored of it, but for the distance. */
  function Elected(old_: seq<Neighbor>, e: Entry): Neighbor {
    var j := FindNeighbor(old_, e.id);
    if j < |old_| then old_[j].(distance := e.distance) else Neighbor(e.id, Unknown, 0, e.distance, 0, [])
  }

  function ElectedFrom(old_: seq<Neighbor>, es: seq<Entry>): (r: seq<Neighbor>)
    ensures |r| == |es| && forall i :: 0 <= i < |es| ==> r[i] == Elected(old_, es[i])
  {
    if es == [] then [] else ElectedFrom(old_, es[..|es| - 1]) + [Elected(old_, es[|es| - 1])]
  }

  function Ranked(metric: Metric, t: Topo): seq<Entry>
    requires Shaped(t)
  {
    Sort(Candidates(metric, t.myId, t.known, t.positions))
  }

  function Reelect(metric: Metric, t: Topo): (r: Topo)
    requires Shaped(t)
    ensures Shaped(r)
  {
    if t.known == [] then t.(neighbors := []) else
    var es := Ranked(metric, t);
    t.(neighbors := ElectedFrom(t.neighbors, if |es| <= t.k then es else es[..t.k]))
  }

  function OnDiscovery(metric: Metric, t: Topo, id: ModuleId, pos: Position): (r: (Topo, Result))
    requires Shaped(t)
    ensures Shaped(r.0)
  {
    if id == INVALID_MODULE_ID then (t, InvalidArg)
    else if id == t.myId then (t, Done)
    else match AddToKnown(t, id, pos)
         case None => (t, NoMemory)
         case Some(t1) => (if |t1.neighbors| < t1.k then Reelect(metric, t1) else t1, Done)
  }

  function OnNeighborLost(metric: Metric, t: Topo, id: ModuleId): (r: (Topo, Result))
    requires Shaped(t)
    ensures Shaped(r.0)
  {
    if id == INVALID_MODULE_ID then (t, InvalidArg) else
    var i := FindNeighbor(t.neighbors, id);
    if i == |t.neighbors| then (t, NotFound)
    else (Reelect(metric, RemoveFromKnown(t, id).(neighbors := Without(t.neighbors, i))), Done)
  }

  // --------------------------------------------------------------- invariant

  predicate Distinct(ids: seq<ModuleId>) {
    forall i, j :: 0 <= i < j < |ids| ==> ids[i] != ids[j]
  }

  predicate DistinctNeighbors(ns: seq<Neighbor>) {
    forall i, j :: 0 <= i < j < |ns| ==> ns[i].id != ns[j].id
  }

  /** Known modules are distinct and others; neighbours are distinct known modules,
      as many as there can be. */
  ghost predicate KnownOk(t: Topo) {
    && Shaped(t) && t.k <= K_NEIGHBORS && t.myId != INVALID_MODULE_ID
    && Distinct(t.known) && t.myId !in t.known && INVALID_MODULE_ID !in t.known
  }

  ghost predicate Ok(t: Topo) {
    && KnownOk(t)
    && DistinctNeighbors(t.neighbors)
    && (forall i :: 0 <= i < |t.neighbors| ==> t.neighbors[i].id in t.known)
    && |t.neighbors| == Min(t.k, |t.known|)
  }

  lemma {:induction false} CandidatesAreKnown(metric: Metric, myId: ModuleId, known: seq<ModuleId>, positions: seq<Position>)
    requires |known| == |positions| && Distinct(known) && myId !in known
    ensures var es := Candidates(metric, myId, known, positions);
            && |es| == |known| && DistinctIds(es)
            && forall i :: 0 <= i < |es| ==> es[i] == Entry(known[i], metric(known[i], positions[i]), positions[i])
  {
    if known != [] {
      CandidatesAreKnown(metric, myId, known[..|known| - 1], positions[..|known| - 1]);
    }
  }

  /** How a known module ranks. */
  function EntryOf(metric: Metric, t: Topo, id: ModuleId): Entry
    requires Shaped(t) && id in t.known
  {
    var i := FindKnown(t.known, id);
    Entry(id, metric(id, t.positions[i]), t.positions[i])
  }

  /** One known module comes before another. */
  predicate Before(metric: Metric, t: Topo, a: ModuleId, b: ModuleId)
    requires Shaped(t) && a in t.known && b in t.known
  {
    Less(EntryOf(metric, t, a), EntryOf(metric, t, b))
  }

  /** The ranking is strict and has exactly the known modules. */
  lemma RankedIsKnown(metric: Metric, t: Topo)
    requires KnownOk(t)
    ensures var es := Ranked(metric, t);
            && |es| == |t.known| && Sorted(es)
            && (forall i :: 0 <= i < |es| ==> es[i].id in t.known && es[i] == EntryOf(metric, t, es[i].id))
            && (forall id :: id in t.known ==> EntryOf(metric, t, id) in es)
  {
    var es := Candidates(metric, t.myId, t.known, t.positions);
    CandidatesAreKnown(metric, t.myId, t.known, t.positions);
    SortSorts(es);
    forall e: Entry | e in Sort(es) ensures e.id in t.known && e == EntryOf(metric, t, e.id) {
      var i :| 0 <= i < |es| && es[i] == e;
      assert FindKnown(t.known, e.id) == i;
    }
    forall id | id in t.known ensures EntryOf(metric, t, id) in Sort(es) {
      assert es[FindKnown(t.known, id)] == EntryOf(metric, t, id);
    }
  }

  ghost function Ids(ns: seq<Neighbor>): set<ModuleId> {
    set i | 0 <= i < |ns| :: ns[i].id
  }

  /** The neighbours are the head of the ranking. */
  ghost predicate HeadOf(metric: Metric, t: Topo, es: seq<Entry>, ns: seq<Neighbor>)
    requires Shaped(t)
  {
    |ns| <= |es| && forall i {:trigger ns[i]} :: 0 <= i < |ns| ==> Ranks(metric, t, es[i], ns[i])
  }

  ghost predicate Ranks(metric: Metric, t: Topo, e: Entry, n: Neighbor)
    requires Shaped(t)
  {
    n.id in t.known && e == EntryOf(metric, t, n.id) && n.distance == e.distance
  }

  lemma ElectedAreRanked(metric: Metric, t: Topo)
    requires KnownOk(t)
    ensures |Ranked(metric, t)| == |t.known|
    ensures |Reelect(metric, t).neighbors| == Min(t.k, |t.known|)
    ensures HeadOf(metric, t, Ranked(metric, t), Reelect(metric, t).neighbors)
  {
    var es := Ranked(metric, t);
    RankedIsKnown(metric, t);
    if t.known != [] {
      TopIsHead(metric, t, es, if |es| <= t.k then es else es[..t.k]);
    }
  }

  lemma TopIsHead(metric: Metric, t: Topo, es: seq<Entry>, top: seq<Entry>)
    requires Shaped(t) && top <= es
    requires forall i :: 0 <= i < |es| ==> es[i].id in t.known && es[i] == EntryOf(metric, t, es[i].id)
    ensures HeadOf(metric, t, es, ElectedFrom(t.neighbors, top))
  {
    ElectedKeepIds(t.neighbors, top);
    var ns := ElectedFrom(t.neighbors, top);
    forall i | 0 <= i < |ns| ensures Ranks(metric, t, es[i], ns[i]) {
      assert top[i] == es[i];
    }
  }

  lemma ElectedKeepIds(old_: seq<Neighbor>, es: seq<Entry>)
    ensures var ns := ElectedFrom(old_, es);
            forall i :: 0 <= i < |es| ==> ns[i].id == es[i].id && ns[i].distance == es[i].distance
  {}

  /** Re-election takes as many neighbours as it can, all known, with their current
      distances ... */
  lemma ReelectTakesKnown(metric: Metric, t: Topo, i: nat)
    requires KnownOk(t)
    ensures |Reelect(metric, t).neighbors| == Min(t.k, |t.known|)
    ensures i < |Reelect(metric, t).neighbors| ==>
              var n := Reelect(metric, t).neighbors[i]; n.id in t.known && n.distance == EntryOf(metric, t, n.id).distance
  {
    ElectedAreRanked(metric, t);
  }

  /** ... in strict order of distance and then identifier ... */
  lemma ReelectIsOrdered(metric: Metric, t: Topo, i: nat, j: nat)
    requires KnownOk(t) && i < j < |Reelect(metric, t).neighbors|
    ensures var a, b := Reelect(metric, t).neighbors[i].id, Reelect(metric, t).neighbors[j].id;
            a in t.known && b in t.known && Before(metric, t, a, b)
  {
    RankedIsSorted(metric, t);
    ElectedAreRanked(metric, t);
    HeadIsOrdered(metric, t, Ranked(metric, t), Reelect(metric, t).neighbors, i, j);
  }

  lemma RankedIsSorted(metric: Metric, t: Topo)
    requires KnownOk(t)
    ensures Sorted(Ranked(metric, t))
  {
    RankedIsKnown(metric, t);
  }

  lemma HeadIsOrdered(metric: Metric, t: Topo, es: seq<Entry>, ns: seq<Neighbor>, i: nat, j: nat)
    requires Shaped(t) && Sorted(es) && HeadOf(metric, t, es, ns) && i < j < |ns|
    ensures ns[i].id in t.known && ns[j].id in t.known && Before(metric, t, ns[i].id, ns[j].id)
  {}

  /** ... and every other known module comes after all of them. */
  lemma ReelectTakesNearest(metric: Metric, t: Topo, i: nat, id: ModuleId)
    requires KnownOk(t) && i < |Reelect(metric, t).neighbors|
    requires id in t.known && id !in Ids(Reelect(metric, t).neighbors)
    ensures var n := Reelect(metric, t).neighbors[i]; n.id in t.known && Before(metric, t, n.id, id)
  {
    RankedIsKnown(metric, t);
    ElectedAreRanked(metric, t);
    OthersComeLater(metric, t, Ranked(metric, t), Reelect(metric, t).neighbors, i, id);
  }

  lemma OthersComeLater(metric: Metric, t: Topo, es: seq<Entry>, ns: seq<Neighbor>, i: nat, id: ModuleId)
    requires Shaped(t) && Sorted(es) && HeadOf(metric, t, es, ns) && i < |ns|
    requires id in t.known && EntryOf(metric, t, id) in es && id !in Ids(ns)
    ensures ns[i].id in t.known && Before(metric, t, ns[i].id, id)
  {
    var j :| 0 <= j < |es| && es[j] == EntryOf(metric, t, id);
    assert forall m :: 0 <= m < |ns| ==> ns[m].id in Ids(ns) && Ranks(metric, t, es[m], ns[m]);
  }

  /** A module that stays keeps all that is stored of it but its distance; a new one
      starts with nothing known of it. */
  lemma ReelectKeepsHealth(metric: Metric, t: Topo, i: nat)
    requires Shaped(t) && i < |Reelect(metric, t).neighbors|
    ensures var n := Reelect(metric, t).neighbors[i];
            && (n.id in Ids(t.neighbors) ==>
                  exists j :: 0 <= j < |t.neighbors| && t.neighbors[j].id == n.id && n == t.neighbors[j].(distance := n.distance))
            && (n.id !in Ids(t.neighbors) ==> n == Neighbor(n.id, Unknown, 0, n.distance, 0, []))
  {
    var n := Reelect(metric, t).neighbors[i];
    var j := FindNeighbor(t.neighbors, n.id);
    if j < |t.neighbors| { assert t.neighbors[j].id in Ids(t.neighbors); }
  }

  lemma ReelectKeepsOk(metric: Metric, t: Topo)
    requires KnownOk(t)
    ensures Ok(Reelect(metric, t))
  {
    var ns := Reelect(metric, t).neighbors;
    forall i | 0 <= i < |ns| ensures ns[i].id in t.known { ReelectTakesKnown(metric, t, i); }
    forall i, j | 0 <= i < j < |ns| ensures ns[i].id != ns[j].id { ReelectIsOrdered(metric, t, i, j); }
    ReelectTakesKnown(metric, t, 0);
  }

  // ------------------------------------------------------------------- runs

  datatype Event = Discovery(id: ModuleId, pos: Position) | Lost(id: ModuleId) | Reelection

  function Apply(metric: Metric, t: Topo, ev: Event): (r: Topo)
    requires Shaped(t)
    ensures Shaped(r)
  {
    match ev
    case Discovery(id, pos) => OnDiscovery(metric, t, id, pos).0
    case Lost(id) => OnNeighborLost(metric, t, id).0
    case Reelection => Reelect(metric, t)
  }

  function Run(metric: Metric, t: Topo, evs: seq<Event>): (r: Topo)
    requires Shaped(t)
    ensures Shaped(r)
    decreases evs
  {
    if evs == [] then t else Run(metric, Apply(metric, t, evs[0]), evs[1..])
  }

  lemma WithoutKeepsDistinct(ids: seq<ModuleId>, i: nat)
    requires Distinct(ids) && i < |ids|
    ensures Distinct(Without(ids, i)) && forall x :: x in Without(ids, i) <==> x in ids && x != ids[i]
  {
    var r := Without(ids, i);
    forall x | x in ids && x != ids[i] ensures x in r {
      var k :| 0 <= k < |ids| && ids[k] == x;
      assert r[if k < i then k else k - 1] == x;
    }
  }

  lemma DiscoveryKeepsOk(metric: Metric, t: Topo, id: ModuleId, pos: Position)
    requires Ok(t)
    ensures Ok(OnDiscovery(metric, t, id, pos).0)
  {
    if id != INVALID_MODULE_ID && id != t.myId {
      var added := AddToKnown(t, id, pos);
      if added.Some? {
        AddingKeepsKnown(t, id, pos);
        ReelectKeepsOk(metric, added.value);
      }
    }
  }

  lemma AddingKeepsKnown(t: Topo, id: ModuleId, pos: Position)
    requires Ok(t) && id != INVALID_MODULE_ID && id != t.myId && AddToKnown(t, id, pos).Some?
    ensures var t' := AddToKnown(t, id, pos).value;
            KnownOk(t') && (|t'.neighbors| >= t'.k ==> Ok(t'))
  {}

  lemma LossKeepsOk(metric: Metric, t: Topo, id: ModuleId)
    requires Ok(t)
    ensures Ok(OnNeighborLost(metric, t, id).0)
  {
    var i := FindNeighbor(t.neighbors, id);
    if id != INVALID_MODULE_ID && i < |t.neighbors| {
      RemovingKeepsKnown(t, id);
      ReelectKeepsOk(metric, RemoveFromKnown(t, id).(neighbors := Without(t.neighbors, i)));
    }
  }

  lemma RemovingKeepsKnown(t: Topo, id: ModuleId)
    requires KnownOk(t) && id in t.known
    ensures KnownOk(RemoveFromKnown(t, id))
  {
    WithoutKeepsDistinct(t.known, FindKnown(t.known, id));
  }

  lemma StepKeepsOk(metric: Metric, t: Topo, ev: Event)
    requires Ok(t)
    ensures Ok(Apply(metric, t, ev))
  {
    match ev
    case Discovery(id, pos) => DiscoveryKeepsOk(metric, t, id, pos);
    case Lost(id) => LossKeepsOk(metric, t, id);
    case Reelection => ReelectKeepsOk(metric, t);
  }

  /** From initialisation, over any discoveries, losses and re-elections, with
      k at most 7: known modules are distinct and never the module itself, and the
      neighbours are min(k, known) distinct known modules. */
  lemma {:induction false} RunKeepsOk(metric: Metric, t: Topo, evs: seq<Event>)
    requires Ok(t)
    ensures Ok(Run(metric, t, evs))
    decreases evs
  {
    if evs != [] {
      StepKeepsOk(metric, t, evs[0]);
      RunKeepsOk(metric, Apply(metric, t, evs[0]), evs[1..]);
    }
  }

  lemma TopologyIsOk(metric: Metric, myId: ModuleId, k: nat, evs: seq<Event>)
    requires myId != INVALID_MODULE_ID && k <= K_NEIGHBORS
    ensures Ok(Run(metric, Init(myId, k), evs))
  {
    RunKeepsOk(metric, Init(myId, k), evs);
  }

  // --------------------------------------------------- each call's outcome

  /** Module `id` is known at `pos`. */
  ghost predicate KnownAt(t: Topo, id: ModuleId, pos: Position)
    requires Shaped(t)
  {
    exists j :: 0 <= j < |t.known| && t.known[j] == id && t.positions[j] == pos
  }

  /** Nothing but what is known of places is another. */
  predicate SameButKnown(t: Topo, t': Topo) {
    t' == t.(known := t'.known, positions := t'.positions)
  }

  /** A module heard of is known at its new place, and every other where it was. */
  lemma AddingOutcome(t: Topo, id: ModuleId, pos: Position, other: ModuleId, there: Position)
    requires Shaped(t) && Distinct(t.known) && AddToKnown(t, id, pos).Some?
    ensures var t1 := AddToKnown(t, id, pos).value;
            && SameButKnown(t, t1) && KnownAt(t1, id, pos) && (KnownAt(t1, id, there) ==> there == pos)
            && (other != id ==> (KnownAt(t1, other, there) <==> KnownAt(t, other, there)))
            && t1.known == if id in t.known then t.known else t.known + [id]
  {
    var t1, i := AddToKnown(t, id, pos).value, FindKnown(t.known, id);
    assert t1.known[i] == id && t1.positions[i] == pos;
    if KnownAt(t1, id, there) {
      var j :| 0 <= j < |t1.known| && t1.known[j] == id && t1.positions[j] == there;
      assert j == i;
    }
    if other != id && KnownAt(t1, other, there) {
      var j :| 0 <= j < |t1.known| && t1.known[j] == other && t1.positions[j] == there;
      assert t.known[j] == other && t.positions[j] == there;
    }
    if other != id && KnownAt(t, other, there) {
      var j :| 0 <= j < |t.known| && t.known[j] == other && t.positions[j] == there;
      assert t1.known[j] == other && t1.positions[j] == there;
    }
  }

  /** Where the module in place j was before place i was taken out. */
  function PlaceBefore(j: nat, i: nat): nat {
    if j < i then j else j + 1
  }

  lemma RemovedShift(t: Topo, id: ModuleId, j: nat)
    requires Shaped(t) && id in t.known && j < |t.known| - 1
    ensures var t1, k := RemoveFromKnown(t, id), PlaceBefore(j, FindKnown(t.known, id));
            |t1.known| == |t.known| - 1 == |t1.positions| && t1.known[j] == t.known[k] && t1.positions[j] == t.positions[k]
  {}

  /** A module removed is not known any more, ... */
  lemma RemovedIsGone(t: Topo, id: ModuleId)
    requires Shaped(t) && Distinct(t.known)
    ensures SameButKnown(t, RemoveFromKnown(t, id)) && Shaped(RemoveFromKnown(t, id)) && id !in RemoveFromKnown(t, id).known
  {
    var t1 := RemoveFromKnown(t, id);
    if id in t.known {
      forall j | 0 <= j < |t1.known| ensures t1.known[j] != id { RemovedShift(t, id, j); }
    }
  }

  /** ... every other where it was, ... */
  lemma RemovingKeepsPlaces(t: Topo, id: ModuleId, other: ModuleId, there: Position)
    requires Shaped(t) && Distinct(t.known) && other != id
    ensures Shaped(RemoveFromKnown(t, id)) && (KnownAt(RemoveFromKnown(t, id), other, there) <==> KnownAt(t, other, there))
  {
    var t1, i := RemoveFromKnown(t, id), FindKnown(t.known, id);
    if id in t.known {
      if KnownAt(t1, other, there) {
        var j :| 0 <= j < |t1.known| && t1.known[j] == other && t1.positions[j] == there;
        RemovedShift(t, id, j);
      }
      if KnownAt(t, other, there) {
        var j :| 0 <= j < |t.known| && t.known[j] == other && t.positions[j] == there;
        var k := if j < i then j else j - 1;
        assert j != i;
        RemovedShift(t, id, k);
        assert t1.known[k] == other && t1.positions[k] == there;
      }
    }
  }

  /** ... in the same order. */
  lemma RemovingKeepsOrder(t: Topo, id: ModuleId, a: nat, b: nat)
    requires Shaped(t) && Distinct(t.known) && id in t.known && a < b < |t.known| - 1
    ensures var t1 := RemoveFromKnown(t, id);
            |t1.known| == |t.known| - 1 && FindKnown(t.known, t1.known[a]) < FindKnown(t.known, t1.known[b])
  {
    SlotsOfDistinct(t.known);
    RemovedShift(t, id, a);
    RemovedShift(t, id, b);
  }

  lemma SlotsOfDistinct(known: seq<ModuleId>)
    requires Distinct(known)
    ensures forall j :: 0 <= j < |known| ==> FindKnown(known, known[j]) == j
  {
    forall j | 0 <= j < |known| ensures FindKnown(known, known[j]) == j {
      var k := FindKnown(known, known[j]);
      assert known[j] in known && k < |known| && known[k] == known[j];
    }
  }

  /** A discovery is refused only for number 0, ignored of oneself, and otherwise taken
      into the places; the election is held again exactly while neighbours are missing. */
  lemma DiscoveryOutcome(metric: Metric, t: Topo, id: ModuleId, pos: Position)
    requires Ok(t)
    ensures var (t', r) := OnDiscovery(metric, t, id, pos);
            if id == 0 then t' == t && r == InvalidArg
            else if id == t.myId then t' == t && r == Done
            else AddToKnown(t, id, pos).Some? && r == Done
                 && var t1 := AddToKnown(t, id, pos).value; t' == if |t.neighbors| < t.k then Reelect(metric, t1) else t1
  {
    NeverFull(t, id, pos);
  }

  /** The loss of a neighbour removes it from the places and from the neighbours, and holds
      the election again among the others; the loss of another module changes nothing. */
  lemma LossOutcome(metric: Metric, t: Topo, id: ModuleId, i: nat)
    requires Ok(t) && id != INVALID_MODULE_ID
    requires i <= |t.neighbors| && (i < |t.neighbors| ==> t.neighbors[i].id == id) && forall j :: 0 <= j < i ==> t.neighbors[j].id != id
    ensures OnNeighborLost(metric, t, id) == if i == |t.neighbors| then (t, NotFound) else (Reelect(metric, WithoutNeighbor(t, id, i)), Done)
  {
    FoundAt(t.neighbors, id, i);
  }

  function WithoutNeighbor(t: Topo, id: ModuleId, i: nat): (r: Topo)
    requires Shaped(t) && i < |t.neighbors|
    ensures Shaped(r)
  {
    RemoveFromKnown(t, id).(neighbors := t.neighbors[..i] + t.neighbors[i + 1..])
  }

  /** A module lost is no neighbour after that. */
  lemma LostIsNoNeighbor(metric: Metric, t: Topo, id: ModuleId, i: nat, n: Neighbor)
    requires Ok(t) && i < |t.neighbors| && t.neighbors[i].id == id && n in Reelect(metric, WithoutNeighbor(t, id, i)).neighbors
    ensures n.id != id
  {
    var t1 := WithoutNeighbor(t, id, i);
    RemovingKeepsKnown(t, id);
    RemovedIsGone(t, id);
    var j :| 0 <= j < |Reelect(metric, t1).neighbors| && Reelect(metric, t1).neighbors[j] == n;
    ReelectTakesKnown(metric, t1, j);
  }

  /** There is always room for another module: identifiers run out first. */
  lemma NeverFull(t: Topo, id: ModuleId, pos: Position)
    requires Ok(t)
    ensures AddToKnown(t, id, pos).Some?
  {
    DistinctBound(t.known, 256);
    if |t.known| == MAX_MODULES { DistinctBound(t.known + [t.myId], 256); }
  }

  lemma {:induction false} DistinctBound(ids: seq<ModuleId>, n: nat)
    requires Distinct(ids) && forall i :: 0 <= i < |ids| ==> ids[i] < n
    ensures |ids| <= n
  {
    if ids != [] {
      assert ids[0] < n;
      var top: nat := n - 1;
      if top in ids {
        var i :| 0 <= i < |ids| && ids[i] == top;
        WithoutKeepsDistinct(ids, i);
        var r := Without(ids, i);
        forall k | 0 <= k < |r| ensures r[k] < n - 1 { assert r[k] in r; }
        DistinctBound(r, n - 1);
      } else {
        DistinctBound(ids, n - 1);
      }
    }
  }

  // ---------------------------------------------------------------- in place

  const NOBODY: Neighbor := Neighbor(INVALID_MODULE_ID, Unknown, 0, 0, 0, [])

  class TopologyCtx {
    const metric: Metric
    const myId: ModuleId
    const k: nat
    const allKnown: array<ModuleId>
    const positions: array<Position>
    const neighbors: array<Neighbor>
    var knownCount: nat
    var neighborCount: nat

    ghost predicate Shape() reads this {
      && allKnown.Length == MAX_MODULES && positions.Length == MAX_MODULES && neighbors.Length == K_NEIGHBORS
      && k <= K_NEIGHBORS && knownCount <= MAX_MODULES && neighborCount <= K_NEIGHBORS
    }

    ghost predicate Valid() reads this, allKnown, positions, neighbors {
      Shape() && Ok(View())
    }

    ghost function View(): Topo reads this, allKnown, positions, neighbors
      requires Shape()
    {
      Topo(myId, k, allKnown[..knownCount], positions[..knownCount], neighbors[..neighborCount])
    }

    constructor (myId: ModuleId, k: nat, metric: Metric)
      requires myId != INVALID_MODULE_ID && k <= K_NEIGHBORS
      ensures Valid() && View() == Init(myId, k)
    {
      this.myId, this.k, this.metric := myId, k, metric;
      allKnown := new ModuleId[MAX_MODULES](_ => INVALID_MODULE_ID);
      positions := new Position[MAX_MODULES](_ => Position(0, 0, 0));
      neighbors := new Neighbor[K_NEIGHBORS](_ => NOBODY);
      knownCount, neighborCount := 0, 0;
    }

    method FindKnownIndex(id: ModuleId) returns (i: nat)
      requires Shape()
      ensures i == FindKnown(View().known, id)
    {
      i := 0;
      while i < knownCount && allKnown[i] != id
        invariant i <= knownCount && id !in allKnown[..i]
      {
        i := i + 1;
      }
    }

    method FindNeighborIndex(id: ModuleId) returns (i: nat)
      requires Shape()
      ensures i == FindNeighbor(View().neighbors, id)
    {
      i := 0;
      while i < neighborCount && neighbors[i].id != id
        invariant i <= neighborCount && forall j :: 0 <= j < i ==> neighbors[j].id != id
      {
        i := i + 1;
      }
      FoundAt(View().neighbors, id, i);
    }

    method AddKnown(id: ModuleId, pos: Position) returns (ok: bool)
      requires Shape()
      modifies this`knownCount, allKnown, positions
      ensures Shape() && ok == AddToKnown(old(View()), id, pos).Some?
      ensures View() == if ok then AddToKnown(old(View()), id, pos).value else old(View())
    {
      var i := FindKnownIndex(id);
      if i < knownCount {
        positions[i] := pos;
        assert View().positions == old(View()).positions[i := pos];
        return true;
      }
      if knownCount >= MAX_MODULES { return false; }
      allKnown[knownCount] := id;
      positions[knownCount] := pos;
      knownCount := knownCount + 1;
      assert View().known == old(View()).known + [id] && View().positions == old(View()).positions + [pos];
      return true;
    }

    method RemoveKnown(id: ModuleId)
      requires Shape()
      modifies this`knownCount, allKnown, positions
      ensures Shape() && View() == RemoveFromKnown(old(View()), id)
    {
      var i := FindKnownIndex(id);
      if i == knownCount { return; }
      ShiftDown(allKnown, i, knownCount);
      ShiftDown(positions, i, knownCount);
      knownCount := knownCount - 1;
    }

    /** The candidates in discovery order. */
    method BuildEntries() returns (entries: array<Entry>, count: nat)
      requires Shape() && Shaped(View())
      ensures fresh(entries) && count <= entries.Length
      ensures entries[..count] == Candidates(metric, myId, View().known, View().positions)
    {
      entries := new Entry[MAX_MODULES](_ => Entry(INVALID_MODULE_ID, 0, Position(0, 0, 0)));
      count := 0;
      ghost var known, places := View().known, View().positions;
      for i := 0 to knownCount
        invariant count <= i
        invariant entries[..count] == Candidates(metric, myId, known[..i], places[..i])
      {
        assert known[..i + 1][..i] == known[..i] && places[..i + 1][..i] == places[..i];
        var id := allKnown[i];
        if id != myId {
          entries[count] := Entry(id, metric(id, positions[i]), positions[i]);
          count := count + 1;
        }
      }
      assert known[..knownCount] == known && places[..knownCount] == places;
    }

    method ElectOne(oldNeighbors: seq<Neighbor>, e: Entry) returns (n: Neighbor)
      ensures n == Elected(oldNeighbors, e)
    {
      var j := 0;
      while j < |oldNeighbors| && oldNeighbors[j].id != e.id
        invariant j <= |oldNeighbors| && forall m :: 0 <= m < j ==> oldNeighbors[m].id != e.id
      {
        j := j + 1;
      }
      if j < |oldNeighbors| {
        n := oldNeighbors[j].(distance := e.distance);
      } else {
        n := Neighbor(e.id, Unknown, 0, e.distance, 0, []);
      }
    }

    /** Takes the first entries as the new neighbours. */
    method Elect(entries: array<Entry>, n: nat)
      requires Shape() && n <= entries.Length && n <= K_NEIGHBORS
      modifies this`neighborCount, neighbors
      ensures Shape()
      ensures View() == old(View()).(neighbors := ElectedFrom(old(View()).neighbors, entries[..n]))
    {
      var oldNeighbors := neighbors[..neighborCount];
      for i := 0 to n
        modifies neighbors
        invariant neighbors[..i] == ElectedFrom(oldNeighbors, entries[..i])
      {
        assert entries[..i + 1][..i] == entries[..i];
        neighbors[i] := ElectOne(oldNeighbors, entries[i]);
      }
      ClearFrom(n);
      neighborCount := n;
    }

    method ClearFrom(n: nat)
      requires n <= K_NEIGHBORS == neighbors.Length
      modifies neighbors
      ensures neighbors[..n] == old(neighbors[..n])
    {
      for i := n to K_NEIGHBORS
        invariant neighbors[..n] == old(neighbors[..n])
      {
        neighbors[i] := neighbors[i].(id := INVALID_MODULE_ID, health := Unknown);
      }
    }

    method DoReelect() returns (n: nat)
      requires Shape() && KnownOk(View())
      modifies this`neighborCount, neighbors
      ensures Valid() && View() == Reelect(metric, old(View())) && n == |View().neighbors|
    {
      ghost var t := View();
      if knownCount == 0 {
        neighborCount := 0;
        n := 0;
      } else {
        n := TakeNearest();
      }
      ReelectKeepsOk(metric, t);
    }

    method TakeNearest() returns (n: nat)
      requires Shape() && Shaped(View()) && knownCount > 0
      modifies this`neighborCount, neighbors
      ensures Shape() && View() == Reelect(metric, old(View())) && n == |View().neighbors|
    {
      var entries, count := BuildEntries();
      SortByDistance(entries, count);
      n := if count < k then count else k;
      assert entries[..n] == entries[..count][..n];
      Elect(entries, n);
    }

    method HandleDiscovery(id: ModuleId, pos: Position) returns (r: Result)
      requires Valid()
      modifies this, allKnown, positions, neighbors
      ensures Valid() && (View(), r) == OnDiscovery(metric, old(View()), id, pos)
    {
      StepKeepsOk(metric, View(), Discovery(id, pos));
      if id == INVALID_MODULE_ID { return InvalidArg; }
      if id == myId { return Done; }
      ghost var t := View();
      var ok := AddKnown(id, pos);
      if !ok { return NoMemory; }
      if neighborCount < k {
        AddingKeepsKnown(t, id, pos);
        var _ := DoReelect();
      }
      return Done;
    }

    method DropNeighbor(i: nat)
      requires Shape() && i < neighborCount
      modifies this`neighborCount, neighbors
      ensures Shape() && View() == old(View()).(neighbors := Without(old(View()).neighbors, i))
    {
      ShiftDown(neighbors, i, neighborCount);
      neighborCount := neighborCount - 1;
      neighbors[neighborCount] := neighbors[neighborCount].(id := INVALID_MODULE_ID, health := Unknown);
    }

    method HandleNeighborLost(id: ModuleId) returns (r: Result)
      requires Valid()
      modifies this, allKnown, positions, neighbors
      ensures Valid() && (View(), r) == OnNeighborLost(metric, old(View()), id)
    {
      StepKeepsOk(metric, View(), Lost(id));
      if id == INVALID_MODULE_ID { return InvalidArg; }
      var i := FindNeighborIndex(id);
      if i == neighborCount { return NotFound; }
      ghost var t := View();
      RemovingKeepsKnown(t, id);
      RemoveKnown(id);
      DropNeighbor(i);
      var _ := DoReelect();
      return Done;
    }
  }

  /** Moves the elements after i down by one. */
  method ShiftDown<T>(a: array<T>, i: nat, count: nat)
    requires i < count <= a.Length
    modifies a
    ensures a[..count - 1] == Without(old(a[..count]), i)
  {
    for j := i to count - 1
      invariant forall m :: 0 <= m < a.Length && (m < i || m >= j) ==> a[m] == old(a[m])
      invariant forall m :: i <= m < j ==> a[m] == old(a[m + 1])
    {
      a[j] := a[j + 1];
    }
  }
}
