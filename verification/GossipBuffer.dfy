/**
 What the single pass over the buffered events leaves behind: the exact condition
 under which nothing that has come due stays in the buffer, and what becomes of an
 event that does stay.
 */
module GossipBuffer {
  import opened Types
  import opened VersionVectors
  import opened Gossip
  import opened GossipLimit

  /** Already delivered, by number. */
  predicate Stale(n: Node, e: Event) {
    e.item.seqNo <= Lookup(n.vv, e.item.origin)
  }

  /** Still waiting for an event before it. */
  predicate Waits(n: Node, e: Event) {
    e.item.seqNo > Lookup(n.vv, e.item.origin) + 1
  }

  /** No event in the buffer is the next of its origin, or older. */
  ghost predicate Clean(n: Node) {
    forall e :: e in n.buffered ==> Waits(n, e)
  }

  // ------------------------------------------------- one origin's numbers

  /** The numbers of an origin's events, in buffer order. */
  function Nums(events: seq<Event>, o: ModuleId): seq<nat> {
    if events == [] then [] else
    (if events[0].item.origin == o then [events[0].item.seqNo] else []) + Nums(events[1..], o)
  }

  /** Every number from v + 1 to x is there. */
  ghost predicate InLine(nums: seq<nat>, v: nat, x: nat) {
    v < x && forall y :: v < y <= x ==> y in nums
  }

  /** None at or below v, and the consecutive ones from v + 1 stand in ascending order,
      none of them twice. */
  ghost predicate Steady(nums: seq<nat>, v: nat) {
    && (forall x :: x in nums ==> x > v)
    && (forall i, j :: 0 <= i < j < |nums| && InLine(nums, v, nums[i]) && InLine(nums, v, nums[j]) ==> nums[i] < nums[j])
  }

  /** One pass over the numbers of an origin: the last one taken, and those left. */
  function Reached(nums: seq<nat>, v: nat): nat {
    if nums == [] then v else Reached(nums[1..], if nums[0] == v + 1 then v + 1 else v)
  }

  function Left(nums: seq<nat>, v: nat): seq<nat> {
    if nums == [] then []
    else if nums[0] == v + 1 then Left(nums[1..], v + 1)
    else [nums[0]] + Left(nums[1..], v)
  }

  ghost predicate SweepsClean(nums: seq<nat>, v: nat) {
    forall x :: x in Left(nums, v) ==> x > Reached(nums, v) + 1
  }

  lemma {:induction false} SweepTakes(nums: seq<nat>, v: nat)
    ensures Reached(nums, v) >= v && forall y :: v < y <= Reached(nums, v) ==> y in nums
    ensures forall x :: x in nums ==> x in Left(nums, v) || x <= Reached(nums, v)
  {
    if nums != [] {
      var first, rest := nums[0], nums[1..];
      assert nums == [first] + rest;
      SweepTakes(rest, if first == v + 1 then v + 1 else v);
    }
  }

  lemma {:induction false} SweepsCleanIff(nums: seq<nat>, v: nat)
    ensures SweepsClean(nums, v) <==> Steady(nums, v)
  {
    if nums != [] {
      var rest := nums[1..];
      assert nums == [nums[0]] + rest;
      if nums[0] == v + 1 {
        assert Left(nums, v) == Left(rest, v + 1) && Reached(nums, v) == Reached(rest, v + 1);
        SweepsCleanIff(rest, v + 1);
        FirstIsNext(nums, v);
      } else {
        SweepsCleanIff(rest, v);
        FirstIsLeft(nums, v);
      }
    }
  }

  /** The first number is the next: what remains is steady from there. */
  lemma FirstIsNext(nums: seq<nat>, v: nat)
    requires nums != [] && nums[0] == v + 1
    ensures Steady(nums, v) <==> Steady(nums[1..], v + 1)
  {
    var rest := nums[1..];
    assert nums == [v + 1] + rest;
    forall x | x > v + 1 ensures InLine(nums, v, x) <==> InLine(rest, v + 1, x) {
      if InLine(nums, v, x) {
        forall y | v + 1 < y <= x ensures y in rest { assert y in nums; }
      }
    }
    if Steady(nums, v) {
      NextOnlyOnce(nums, v);
      forall i, j | 0 <= i < j < |rest| && InLine(rest, v + 1, rest[i]) && InLine(rest, v + 1, rest[j]) ensures rest[i] < rest[j] {
        assert nums[i + 1] == rest[i] && nums[j + 1] == rest[j];
      }
    }
    if Steady(rest, v + 1) {
      forall i, j | 0 <= i < j < |nums| && InLine(nums, v, nums[i]) && InLine(nums, v, nums[j]) ensures nums[i] < nums[j] {
        assert nums[j] == rest[j - 1] && nums[j] in rest;
        if i > 0 { assert nums[i] == rest[i - 1] && nums[i] in rest; }
      }
    }
  }

  lemma NextOnlyOnce(nums: seq<nat>, v: nat)
    requires nums != [] && nums[0] == v + 1 && Steady(nums, v)
    ensures forall x :: x in nums[1..] ==> x > v + 1
  {
    assert InLine(nums, v, v + 1);
    forall j | 1 <= j < |nums| ensures nums[j] > v + 1 {
      assert nums[j] in nums;
      assert InLine(nums, v, nums[0]);
    }
  }

  /** The first number is passed over: it must be beyond all that the rest takes. */
  lemma FirstIsLeft(nums: seq<nat>, v: nat)
    requires nums != [] && nums[0] != v + 1 && (SweepsClean(nums[1..], v) <==> Steady(nums[1..], v))
    ensures SweepsClean(nums, v) <==> Steady(nums, v)
  {
    CleanAfterFirst(nums, v);
    if Steady(nums, v) { LeftIsBeyond(nums, v); }
    if SweepsClean(nums, v) { LeftIsSteady(nums, v); }
  }

  lemma CleanAfterFirst(nums: seq<nat>, v: nat)
    requires nums != [] && nums[0] != v + 1
    ensures SweepsClean(nums, v) <==> SweepsClean(nums[1..], v) && nums[0] > Reached(nums[1..], v) + 1
  {
    var left, w := Left(nums[1..], v), Reached(nums[1..], v);
    assert Left(nums, v) == [nums[0]] + left && Reached(nums, v) == w;
    assert nums[0] in Left(nums, v);
    if SweepsClean(nums, v) {
      forall x | x in left ensures x > w + 1 { assert x in Left(nums, v); }
    }
  }

  lemma LeftIsBeyond(nums: seq<nat>, v: nat)
    requires nums != [] && nums[0] != v + 1 && Steady(nums, v)
    ensures Steady(nums[1..], v) && nums[0] > Reached(nums[1..], v) + 1
  {
    var first, rest := nums[0], nums[1..];
    assert nums == [first] + rest;
    assert first in nums;
    if first <= Reached(rest, v) + 1 { TooEarly(nums, v); }
    forall x | x in rest ensures x > v { assert x in nums; }
    forall i, j | 0 <= i < j < |rest| && InLine(rest, v, rest[i]) && InLine(rest, v, rest[j]) ensures rest[i] < rest[j] {
      assert nums[i + 1] == rest[i] && nums[j + 1] == rest[j];
      assert InLine(nums, v, nums[i + 1]) && InLine(nums, v, nums[j + 1]);
    }
  }

  /** A number that the rest leads up to stands before the first of those. */
  lemma TooEarly(nums: seq<nat>, v: nat)
    requires nums != [] && v + 1 < nums[0] <= Reached(nums[1..], v) + 1
    ensures !Steady(nums, v)
  {
    var first, rest := nums[0], nums[1..];
    assert nums == [first] + rest;
    SweepTakes(rest, v);
    assert v + 1 in rest;
    var j :| 0 <= j < |rest| && rest[j] == v + 1;
    forall y | v < y <= first ensures y in nums { assert y in rest || y == first; }
    assert InLine(nums, v, nums[0]) && InLine(nums, v, nums[j + 1]) && nums[0] > nums[j + 1];
  }

  lemma LeftIsSteady(nums: seq<nat>, v: nat)
    requires nums != [] && Steady(nums[1..], v) && SweepsClean(nums[1..], v) && nums[0] > Reached(nums[1..], v) + 1
    ensures Steady(nums, v)
  {
    var first, rest, w := nums[0], nums[1..], Reached(nums[1..], v);
    assert nums == [first] + rest;
    SweepTakes(rest, v);
    forall x | x in nums ensures x > v && x != w + 1 {
      assert x == first || x in rest;
    }
    forall i, j | 0 <= i < j < |nums| && InLine(nums, v, nums[i]) && InLine(nums, v, nums[j]) ensures nums[i] < nums[j] {
      LineEnds(nums, v, w, nums[i]);
      LineEnds(nums, v, w, nums[j]);
      assert nums[i] == rest[i - 1] && nums[j] == rest[j - 1];
      assert InLine(rest, v, rest[i - 1]) && InLine(rest, v, rest[j - 1]);
    }
  }

  lemma LineEnds(nums: seq<nat>, v: nat, w: nat, x: nat)
    requires nums != [] && v <= w && w + 1 !in nums && nums[0] > w + 1 && InLine(nums, v, x)
    ensures x <= w && InLine(nums[1..], v, x)
  {
    assert nums == [nums[0]] + nums[1..];
    assert x <= w || w + 1 in nums;
    forall y | v < y <= x ensures y in nums[1..] { assert y in nums; }
  }

  // --------------------------------------------------------------- the pass

  /** The vector has room for every module there is. */
  ghost predicate RoomFor(n: Node, ids: set<ModuleId>) {
    && Valid(n.vv) && Ids(n.vv) <= ids && |ids| <= CAPACITY
    && forall k :: 0 <= k < |n.buffered| ==> n.buffered[k].item.origin in ids
  }

  lemma {:induction false} NumsConcat(a: seq<Event>, b: seq<Event>, o: ModuleId)
    ensures Nums(a + b, o) == Nums(a, o) + Nums(b, o)
  {
    if a == [] {
      assert a + b == b;
    } else {
      NumsConcat(a[1..], b, o);
      assert (a + b)[1..] == a[1..] + b;
    }
  }

  lemma {:induction false} NumsHold(events: seq<Event>, o: ModuleId)
    ensures forall e :: e in events && e.item.origin == o ==> e.item.seqNo in Nums(events, o)
    ensures forall x :: x in Nums(events, o) ==> exists e :: e in events && e.item.origin == o && e.item.seqNo == x
  {
    if events != [] {
      NumsHold(events[1..], o);
      assert events == [events[0]] + events[1..];
    }
  }

  lemma NumsFirst(events: seq<Event>, o: ModuleId)
    requires events != []
    ensures var nums, rest := Nums(events, o), Nums(events[1..], o);
            if events[0].item.origin == o then nums != [] && nums[0] == events[0].item.seqNo && nums[1..] == rest else nums == rest
  {
    if events[0].item.origin == o {
      assert Nums(events, o) == [events[0].item.seqNo] + Nums(events[1..], o);
    } else {
      assert Nums(events, o) == [] + Nums(events[1..], o);
    }
  }

  /** From index i on, the pass sweeps each origin's numbers. */
  lemma {:induction false} PassSweeps(n: Node, ids: set<ModuleId>, i: nat, o: ModuleId)
    requires RoomFor(n, ids) && i <= |n.buffered|
    ensures Nums(Pass(n, i).buffered, o) == Nums(n.buffered[..i], o) + Left(Nums(n.buffered[i..], o), Lookup(n.vv, o))
    ensures Lookup(Pass(n, i).vv, o) == Reached(Nums(n.buffered[i..], o), Lookup(n.vv, o))
    decreases |n.buffered| - i
  {
    if i == |n.buffered| {
      assert n.buffered[..i] == n.buffered;
    } else {
      var e, before, rest := n.buffered[i], n.buffered[..i], n.buffered[i + 1..];
      assert n.buffered[i..][0] == e && n.buffered[i..][1..] == rest;
      NumsFirst(n.buffered[i..], o);
      if e.item.seqNo == Lookup(n.vv, e.item.origin) + 1 {
        var n' := Taken(n, ids, i, o);
        assert n'.buffered[..i] == before && n'.buffered[i..] == rest;
        PassSweeps(n', ids, i, o);
      } else {
        KeptAtFront(n.buffered, i, o, Left(Nums(rest, o), Lookup(n.vv, o)));
        PassSweeps(n, ids, i + 1, o);
      }
    }
  }

  lemma KeptAtFront(b: seq<Event>, i: nat, o: ModuleId, left: seq<nat>)
    requires i < |b|
    ensures Nums(b[..i + 1], o) + left == Nums(b[..i], o) + if b[i].item.origin == o then [b[i].item.seqNo] + left else left
  {
    assert b[..i + 1] == b[..i] + [b[i]];
    NumsConcat(b[..i], [b[i]], o);
    assert Nums([b[i]], o) == if b[i].item.origin == o then [b[i].item.seqNo] else [];
  }

  lemma Taken(n: Node, ids: set<ModuleId>, i: nat, o: ModuleId) returns (n': Node)
    requires RoomFor(n, ids) && i < |n.buffered| && n.buffered[i].item.seqNo == Lookup(n.vv, n.buffered[i].item.origin) + 1
    ensures n' == Deliver(n, n.buffered[i].item).(buffered := n.buffered[..i] + n.buffered[i + 1..]) && RoomFor(n', ids)
    ensures Lookup(n'.vv, o) == if o == n.buffered[i].item.origin then n.buffered[i].item.seqNo else Lookup(n.vv, o)
  {
    var item := n.buffered[i].item;
    HasRoomForMembers(n.vv, ids, item.origin);
    IdsAfterSet(n.vv, item.origin, item.seqNo);
    LookupAfterSet(n.vv, item.origin, item.seqNo, o);
    n' := Deliver(n, item).(buffered := n.buffered[..i] + n.buffered[i + 1..]);
  }

  ghost predicate CleanOf(n: Node, o: ModuleId) {
    forall x :: x in Nums(n.buffered, o) ==> x > Lookup(n.vv, o) + 1
  }

  lemma CleanByOrigin(n: Node)
    ensures Clean(n) <==> forall o: ModuleId :: CleanOf(n, o)
  {
    if Clean(n) {
      forall o: ModuleId ensures CleanOf(n, o) { NumsHold(n.buffered, o); }
    }
    if forall o: ModuleId :: CleanOf(n, o) {
      forall e | e in n.buffered ensures Waits(n, e) {
        NumsHold(n.buffered, e.item.origin);
        assert CleanOf(n, e.item.origin);
      }
    }
  }

  /** A pass leaves nothing behind that is due or overdue, exactly when each origin's
      numbers in the buffer were steady before it. */
  lemma PassIsCleanIff(n: Node, ids: set<ModuleId>)
    requires RoomFor(n, ids)
    ensures Clean(Pass(n, 0)) <==> forall o: ModuleId :: Steady(Nums(n.buffered, o), Lookup(n.vv, o))
  {
    CleanByOrigin(Pass(n, 0));
    forall o: ModuleId ensures CleanOf(Pass(n, 0), o) <==> Steady(Nums(n.buffered, o), Lookup(n.vv, o)) {
      PassSweeps(n, ids, 0, o);
      assert n.buffered[0..] == n.buffered && n.buffered[..0] == [];
      var nums, v := Nums(n.buffered, o), Lookup(n.vv, o);
      SweepsCleanIff(nums, v);
      assert [] + Left(nums, v) == Left(nums, v);
    }
  }

  /** Handling the next event of an origin leaves the buffer clean, exactly when the
      numbers buffered were steady: for that origin after the event's number, for the
      others after what has been delivered. */
  lemma HandleIsCleanIff(n: Node, ids: set<ModuleId>, e: Event, sender: ModuleId)
    requires RoomFor(n, ids) && e.item.origin in ids && e.item.seqNo == Lookup(n.vv, e.item.origin) + 1
    ensures Clean(Handle(n, e, sender).0) <==>
            forall o: ModuleId :: Steady(Nums(n.buffered, o), if o == e.item.origin then e.item.seqNo else Lookup(n.vv, o))
  {
    var n' := Deliver(n, e.item);
    HasRoomForMembers(n.vv, ids, e.item.origin);
    IdsAfterSet(n.vv, e.item.origin, e.item.seqNo);
    forall o: ModuleId ensures Lookup(n'.vv, o) == if o == e.item.origin then e.item.seqNo else Lookup(n.vv, o) {
      LookupAfterSet(n.vv, e.item.origin, e.item.seqNo, o);
    }
    PassIsCleanIff(n', ids);
  }

  // ------------------------------------------------- what stays, stays for good

  /** Entries only rise: a delivery raises at most one, by one. */
  lemma DeliverRaises(n: Node, item: Item, o: ModuleId)
    requires Valid(n.vv) && item.seqNo == Lookup(n.vv, item.origin) + 1
    ensures Valid(Deliver(n, item).vv)
    ensures Lookup(n.vv, o) <= Lookup(Deliver(n, item).vv, o) <= Lookup(n.vv, o) + if o == item.origin then 1 else 0
  {
    LookupAfterSet(n.vv, item.origin, item.seqNo, o);
  }

  lemma OthersAreKept(b: seq<Event>, i: nat, e: Event)
    requires i < |b| && b[i] != e
    ensures multiset(b[..i] + b[i + 1..])[e] == multiset(b)[e]
  {
    assert b == b[..i] + [b[i]] + b[i + 1..];
  }

  /** A pass takes out no copy of a stale event. */
  lemma {:induction false} PassKeepsStale(n: Node, i: nat, e: Event)
    requires Valid(n.vv) && Stale(n, e)
    ensures Valid(Pass(n, i).vv) && Stale(Pass(n, i), e)
    ensures multiset(Pass(n, i).buffered)[e] == multiset(n.buffered)[e]
    decreases |n.buffered| - i
  {
    if i < |n.buffered| {
      var item := n.buffered[i].item;
      if item.seqNo == Lookup(n.vv, item.origin) + 1 {
        DeliverRaises(n, item, e.item.origin);
        OthersAreKept(n.buffered, i, e);
        PassKeepsStale(Deliver(n, item).(buffered := n.buffered[..i] + n.buffered[i + 1..]), i, e);
      } else {
        PassKeepsStale(n, i + 1, e);
      }
    }
  }

  lemma HandleKeepsStale(n: Node, handled: Event, sender: ModuleId, e: Event)
    requires Valid(n.vv) && Stale(n, e)
    ensures var n' := Handle(n, handled, sender).0;
            Valid(n'.vv) && Stale(n', e) && multiset(n'.buffered)[e] == multiset(n.buffered)[e]
  {
    var item := handled.item;
    if item.seqNo == Lookup(n.vv, item.origin) + 1 {
      DeliverRaises(n, item, e.item.origin);
      PassKeepsStale(Deliver(n, item), 0, e);
    }
  }

  lemma ReactKeepsStale(n: Node, s: Step, e: Event)
    requires Valid(n.vv) && Stale(n, e)
    ensures var n' := React(n, s).0;
            Valid(n'.vv) && Stale(n', e) && multiset(n'.buffered)[e] == multiset(n.buffered)[e]
  {
    match s
    case Emits(_, body) => LookupAfterSet(n.vv, n.id, Lookup(n.vv, n.id) + 1, e.item.origin);
    case Receives(_, Gossip(_, from, handled)) => HandleKeepsStale(n, handled, from, e);
    case _ =>
  }

  lemma StepKeepsStale(w: Network, s: Step, i: ModuleId, e: Event)
    requires Enabled(w, s) && i in w.nodes && Valid(w.nodes[i].vv) && Stale(w.nodes[i], e)
    ensures var w' := Gossip.After(w, s);
            i in w'.nodes && Stale(w'.nodes[i], e) && multiset(w'.nodes[i].buffered)[e] == multiset(w.nodes[i].buffered)[e]
  {
    if s.i == i { ReactKeepsStale(w.nodes[i], s, e); }
  }

  lemma ReactKeepsVector(n: Node, s: Step)
    requires Valid(n.vv)
    ensures Valid(React(n, s).0.vv)
  {
    match s
    case Emits(_, body) => LookupAfterSet(n.vv, n.id, Lookup(n.vv, n.id) + 1, n.id);
    case Receives(_, Gossip(_, from, e)) =>
      if e.item.seqNo == Lookup(n.vv, e.item.origin) + 1 {
        DeliverRaises(n, e.item, n.id);
        PassOnlyRaises(Deliver(n, e.item), 0, n.id);
      }
    case _ =>
  }

  lemma {:induction false} VectorsStayValid(run: seq<Network>, steps: seq<Step>, ids: set<ModuleId>, k: nat, i: ModuleId)
    requires IsRun(run, steps, ids) && k < |run| && i in run[k].nodes
    ensures run[k].nodes.Keys == ids && Valid(run[k].nodes[i].vv)
  {
    if k > 0 {
      assert run[k] == Gossip.After(run[k - 1], steps[k - 1]);
      VectorsStayValid(run, steps, ids, k - 1, i);
      ReactKeepsVector(run[k - 1].nodes[i], steps[k - 1]);
    }
  }

  /** In every run, of any number of modules: an event that is in the buffer after it
      has been delivered is there in every later state, as often as before. */
  lemma {:induction false} StaleForGood(run: seq<Network>, steps: seq<Step>, ids: set<ModuleId>, k: nat, m: nat, i: ModuleId, e: Event)
    requires IsRun(run, steps, ids) && k <= m < |run| && i in run[k].nodes && Stale(run[k].nodes[i], e)
    ensures i in run[m].nodes && Stale(run[m].nodes[i], e)
    ensures multiset(run[m].nodes[i].buffered)[e] == multiset(run[k].nodes[i].buffered)[e]
    decreases m
  {
    if k < m {
      StaleForGood(run, steps, ids, k, m - 1, i, e);
      VectorsStayValid(run, steps, ids, m - 1, i);
      StepKeepsStale(run[m - 1], steps[m - 1], i, e);
      assert run[m] == Gossip.After(run[m - 1], steps[m - 1]);
    }
  }

  // --------------------------------------------- how much of it can be lost

  /** In a full buffer the last event still waits for an earlier one. */
  ghost predicate LastWaits(n: Node) {
    |n.buffered| == MAX_BUFFERED ==> Waits(n, n.buffered[MAX_BUFFERED - 1])
  }

  lemma {:induction false} PassShrinks(n: Node, i: nat)
    ensures |Pass(n, i).buffered| <= |n.buffered|
    decreases |n.buffered| - i
  {
    if i < |n.buffered| {
      var item := n.buffered[i].item;
      if item.seqNo == Lookup(n.vv, item.origin) + 1 {
        PassShrinks(Deliver(n, item).(buffered := n.buffered[..i] + n.buffered[i + 1..]), i);
      } else {
        PassShrinks(n, i + 1);
      }
    }
  }

  /** A pass that takes nothing has looked at the last event as well. */
  lemma {:induction false} PassKeepsLast(n: Node, i: nat)
    requires |n.buffered| == MAX_BUFFERED && i <= MAX_BUFFERED && !Stale(n, n.buffered[MAX_BUFFERED - 1])
    requires i == MAX_BUFFERED ==> Waits(n, n.buffered[MAX_BUFFERED - 1])
    ensures LastWaits(Pass(n, i))
    decreases |n.buffered| - i
  {
    if i < |n.buffered| {
      var item := n.buffered[i].item;
      if item.seqNo == Lookup(n.vv, item.origin) + 1 {
        PassShrinks(Deliver(n, item).(buffered := n.buffered[..i] + n.buffered[i + 1..]), i);
      } else {
        PassKeepsLast(n, i + 1);
      }
    }
  }

  lemma HandleKeepsLast(n: Node, e: Event, sender: ModuleId)
    requires Valid(n.vv) && |n.buffered| <= MAX_BUFFERED && LastWaits(n)
    ensures LastWaits(Handle(n, e, sender).0)
  {
    if e.item.seqNo == Lookup(n.vv, e.item.origin) + 1 {
      var n' := Deliver(n, e.item);
      if |n.buffered| == MAX_BUFFERED {
        DeliverRaises(n, e.item, n.buffered[MAX_BUFFERED - 1].item.origin);
        PassKeepsLast(n', 0);
      } else {
        PassShrinks(n', 0);
      }
    }
  }

  lemma ReactKeepsLast(n: Node, h: History, s: Step)
    requires NodeOk(n, h) && LastWaits(n)
    ensures LastWaits(React(n, s).0)
  {
    match s
    case Emits(_, body) =>
      if |n.buffered| == MAX_BUFFERED {
        var last := n.buffered[MAX_BUFFERED - 1];
        assert GenuineEvent(h, last);
        LookupAfterSet(n.vv, n.id, Lookup(n.vv, n.id) + 1, last.item.origin);
      }
    case Receives(_, Gossip(_, from, e)) => HandleKeepsLast(n, e, from);
    case _ =>
  }

  /** In every reachable state of up to as many modules as a vector has entries, the
      buffer is not full, or its last event still waits: at most three of its four
      slots hold events already delivered. */
  lemma {:induction false} OneSlotStaysOpen(run: seq<Network>, steps: seq<Step>, ids: set<ModuleId>, k: nat, i: ModuleId)
    requires IsRun(run, steps, ids) && |ids| <= CAPACITY && k < |run| && i in ids
    ensures i in run[k].nodes && |run[k].nodes[i].buffered| <= MAX_BUFFERED && LastWaits(run[k].nodes[i])
  {
    ReachedIsOk(run, steps, ids, k, i);
    if k > 0 {
      assert run[k] == Gossip.After(run[k - 1], steps[k - 1]);
      OneSlotStaysOpen(run, steps, ids, k - 1, i);
      ReachedIsOk(run, steps, ids, k - 1, i);
      if steps[k - 1].i == i { ReactKeepsLast(run[k - 1].nodes[i], Emitted(run[k - 1]), steps[k - 1]); }
    }
  }

  lemma ReachedIsOk(run: seq<Network>, steps: seq<Step>, ids: set<ModuleId>, k: nat, i: ModuleId)
    requires IsRun(run, steps, ids) && |ids| <= CAPACITY && k < |run| && i in ids
    ensures i in run[k].nodes && NodeOk(run[k].nodes[i], Emitted(run[k]))
  {
    RunKeepsInv(run, steps, ids, k);
    assert MemberOk(run[k].nodes, Emitted(run[k]), i);
  }

  // ---------------------------------------------------------------- two runs

  function Nth(o: ModuleId, k: nat): Item {
    Item(o, k, HELLO)
  }

  function Copy(o: ModuleId, k: nat): Event {
    Event(Nth(o, k), 0)
  }

  function Note(o: ModuleId, r: ModuleId, k: nat): Packet {
    Packet.Gossip(r, o, Copy(o, k))
  }

  /** Module r has been told of o's events up to v and buffers b, and the notes of o are still about. */
  ghost predicate Told(w: Network, o: ModuleId, r: ModuleId, v: nat, b: seq<Event>) {
    && r in w.nodes && Has(w.nodes[r], o, v, b)
    && forall k :: 1 <= k <= 3 ==> Note(o, r, k) in w.packets
  }

  ghost predicate Has(n: Node, o: ModuleId, v: nat, b: seq<Event>) {
    Valid(n.vv) && HasRoom(n.vv, o) && Lookup(n.vv, o) == v && n.buffered == b && n.neighbors == []
  }

  /** A fresh module takes r as its neighbour, emits three events and sends them. */
  lemma Writes(ids: set<ModuleId>, o: ModuleId, r: ModuleId) returns (t: Trace, w: Network)
    requires o in ids && r in ids && o != r && r != INVALID_MODULE_ID
    ensures TraceOf(t, ids, w) && Told(w, o, r, 0, [])
  {
    w := Start(ids);
    t := Trace([w], []);
    var n0 := Init(o).(neighbors := [r]);
    assert [] + [r] == [r];
    t, w := Then(t, ids, w, Joins(o, r), n0, []);
    var n1 := Emit(n0, HELLO).0;
    t, w := Then(t, ids, w, Emits(o, HELLO), n1, []);
    var n2 := Emit(n1, HELLO).0;
    t, w := Then(t, ids, w, Emits(o, HELLO), n2, []);
    var n3 := Emit(n2, HELLO).0;
    t, w := Then(t, ids, w, Emits(o, HELLO), n3, []);
    assert n3.pending == [Nth(o, 1), Nth(o, 2), Nth(o, 3)];
    FlushesAll(n3, r, n3.pending);
    t, w := Then(t, ids, w, Ticks(o), Flush(n3).0, Flush(n3).1);
    forall k | 1 <= k <= 3 ensures Note(o, r, k) in Flush(n3).1 {
      assert n3.pending[k - 1] == Nth(o, k);
      assert Sent(n3, r, Event(n3.pending[k - 1], 0)) == Note(o, r, k);
    }
    assert w.nodes[r] == Init(r) && Init(r).vv == [Entry(r, 0)];
    assert Find(Init(r).vv, o) == 1;
  }

  lemma {:induction false} FlushesAll(n: Node, r: ModuleId, items: seq<Item>)
    requires n.neighbors == [r]
    ensures forall k :: 0 <= k < |items| ==> Sent(n, r, Event(items[k], 0)) in FlushTo(n, [r], items)
  {
    if items != [] {
      FlushesAll(n, r, items[1..]);
      var rest := FlushTo(n, [r], items[1..]);
      assert FlushTo(n, [r], items) == [Sent(n, r, Event(items[0], 0))] + rest;
      forall k | 0 <= k < |items| ensures Sent(n, r, Event(items[k], 0)) in FlushTo(n, [r], items) {
        if k > 0 { assert items[1..][k - 1] == items[k]; }
      }
    }
  }

  lemma Gets(t: Trace, ids: set<ModuleId>, w: Network, o: ModuleId, r: ModuleId, v: nat, b: seq<Event>, k: nat, v': nat, b': seq<Event>)
    returns (t': Trace, w': Network)
    requires TraceOf(t, ids, w) && Told(w, o, r, v, b) && 1 <= k <= 3
    requires Has(Handle(w.nodes[r], Copy(o, k), o).0, o, v', b')
    ensures Enabled(w, Receives(r, Note(o, r, k))) && w' == Gossip.After(w, Receives(r, Note(o, r, k)))
    ensures TraceOf(t', ids, w') && Told(w', o, r, v', b')
  {
    var (n', _, out) := Handle(w.nodes[r], Copy(o, k), o);
    t', w' := Then(t, ids, w, Receives(r, Note(o, r, k)), n', out);
  }

  lemma GetsLate(t: Trace, ids: set<ModuleId>, w: Network, o: ModuleId, r: ModuleId, v: nat, b: seq<Event>, k: nat) returns (t': Trace, w': Network)
    requires TraceOf(t, ids, w) && Told(w, o, r, v, b) && v + 1 < k <= 3 && |b| < MAX_BUFFERED
    ensures TraceOf(t', ids, w') && Told(w', o, r, v, b + [Copy(o, k)])
  {
    t', w' := Gets(t, ids, w, o, r, v, b, k, v, b + [Copy(o, k)]);
  }

  lemma Delivers(n: Node, o: ModuleId, v: nat, b: seq<Event>)
    requires Has(n, o, v, b)
    ensures Has(Deliver(n, Nth(o, v + 1)), o, v + 1, b)
  {
    LookupAfterSet(n.vv, o, v + 1, o);
    IdsAfterSet(n.vv, o, v + 1);
  }

  lemma {:induction false} PassesOver(n: Node, i: nat)
    requires forall j :: i <= j < |n.buffered| ==> n.buffered[j].item.seqNo != Lookup(n.vv, n.buffered[j].item.origin) + 1
    ensures Pass(n, i) == n
    decreases |n.buffered| - i
  {
    if i < |n.buffered| { PassesOver(n, i + 1); }
  }

  /** Number 2 stands behind number 3, which the pass has then already looked at. */
  lemma TakesTheSecond(n: Node, o: ModuleId)
    requires Has(n, o, 0, [Copy(o, 3), Copy(o, 2)])
    ensures Has(Handle(n, Copy(o, 1), o).0, o, 2, [Copy(o, 3)])
  {
    var n0 := Deliver(n, Nth(o, 1));
    Delivers(n, o, 0, n.buffered);
    Delivers(n0, o, 1, n.buffered);
    var n1 := Deliver(n0, Nth(o, 2)).(buffered := [Copy(o, 3)]);
    assert n0.buffered[..1] + n0.buffered[2..] == [Copy(o, 3)];
    assert Pass(n0, 0) == Pass(n0, 1) == Pass(n1, 1) == n1;
  }

  lemma TakesNone(n: Node, o: ModuleId, v: nat, b: seq<Event>)
    requires Has(n, o, v, b) && forall j :: 0 <= j < |b| ==> b[j].item.origin == o && b[j].item.seqNo != v + 2
    ensures Has(Handle(n, Copy(o, v + 1), o).0, o, v + 1, b)
  {
    Delivers(n, o, v, b);
    PassesOver(Deliver(n, Nth(o, v + 1)), 0);
  }

  lemma TakesTheFirst(n: Node, o: ModuleId)
    requires Has(n, o, 1, Copies(o, 3, MAX_BUFFERED))
    ensures Has(Handle(n, Copy(o, 2), o).0, o, 3, Copies(o, 3, MAX_BUFFERED - 1))
  {
    var n0, left := Deliver(n, Nth(o, 2)), Copies(o, 3, MAX_BUFFERED - 1);
    Delivers(n, o, 1, n.buffered);
    Delivers(n0, o, 2, n.buffered);
    var n1 := Deliver(n0, Nth(o, 3)).(buffered := left);
    assert n0.buffered[..0] + n0.buffered[1..] == left;
    PassesOver(n1, 0);
  }

  lemma GapsFirst(ids: set<ModuleId>, o: ModuleId, r: ModuleId) returns (t: Trace, w: Network)
    requires o in ids && r in ids && o != r && r != INVALID_MODULE_ID
    ensures TraceOf(t, ids, w) && Told(w, o, r, 0, [Copy(o, 3), Copy(o, 2)])
  {
    t, w := Writes(ids, o, r);
    t, w := GetsLate(t, ids, w, o, r, 0, [], 3);
    t, w := GetsLate(t, ids, w, o, r, 0, [Copy(o, 3)], 2);
    assert [] + [Copy(o, 3)] == [Copy(o, 3)];
  }

  /** Received 3, 2, 1, an origin's third event is due and stays in the buffer; received
      once more, it is delivered and stays in the buffer as well. */
  lemma DueButLeft(ids: set<ModuleId>, o: ModuleId, r: ModuleId) returns (t: Trace, w: Network, t': Trace, w': Network)
    requires o in ids && r in ids && o != r && r != INVALID_MODULE_ID
    ensures TraceOf(t, ids, w) && Told(w, o, r, 2, [Copy(o, 3)])
    ensures TraceOf(t', ids, w') && Told(w', o, r, 3, [Copy(o, 3)])
    ensures Enabled(w, Receives(r, Note(o, r, 3))) && w' == Gossip.After(w, Receives(r, Note(o, r, 3)))
  {
    t, w := GapsFirst(ids, o, r);
    TakesTheSecond(w.nodes[r], o);
    t, w := Gets(t, ids, w, o, r, 0, [Copy(o, 3), Copy(o, 2)], 1, 2, [Copy(o, 3)]);
    TakesNone(w.nodes[r], o, 2, [Copy(o, 3)]);
    t', w' := Gets(t, ids, w, o, r, 2, [Copy(o, 3)], 3, 3, [Copy(o, 3)]);
  }

  function Copies(o: ModuleId, k: nat, count: nat): (r: seq<Event>)
    ensures |r| == count
  {
    seq(count, _ => Copy(o, k))
  }

  lemma {:induction false} FillsUp(ids: set<ModuleId>, o: ModuleId, r: ModuleId, count: nat) returns (t: Trace, w: Network)
    requires o in ids && r in ids && o != r && r != INVALID_MODULE_ID && count <= MAX_BUFFERED
    ensures TraceOf(t, ids, w) && Told(w, o, r, 0, Copies(o, 3, count))
  {
    if count == 0 {
      t, w := Writes(ids, o, r);
      assert Copies(o, 3, 0) == [];
    } else {
      t, w := FillsUp(ids, o, r, count - 1);
      t, w := GetsLate(t, ids, w, o, r, 0, Copies(o, 3, count - 1), 3);
      assert Copies(o, 3, count - 1) + [Copy(o, 3)] == Copies(o, 3, count);
    }
  }

  /** Received four times before 1 and 2, the third event takes the whole buffer and
      leaves it only once: three slots are lost for good. */
  lemma ThreeSlotsLost(ids: set<ModuleId>, o: ModuleId, r: ModuleId) returns (t: Trace, w: Network)
    requires o in ids && r in ids && o != r && r != INVALID_MODULE_ID
    ensures TraceOf(t, ids, w) && r in w.nodes && |w.nodes[r].buffered| == MAX_BUFFERED - 1
    ensures forall e :: e in w.nodes[r].buffered ==> Stale(w.nodes[r], e)
  {
    var full, left := Copies(o, 3, MAX_BUFFERED), Copies(o, 3, MAX_BUFFERED - 1);
    t, w := FillsUp(ids, o, r, MAX_BUFFERED);
    TakesNone(w.nodes[r], o, 0, full);
    t, w := Gets(t, ids, w, o, r, 0, full, 1, 1, full);
    TakesTheFirst(w.nodes[r], o);
    t, w := Gets(t, ids, w, o, r, 1, full, 2, 3, left);
  }
}
