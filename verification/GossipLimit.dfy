/**
 How far the promise of the gossip goes: with more modules than a version vector has
 entries, there are runs in which an event is delivered twice; and a vector merged
 from elsewhere skips what it shows for the first time.
 */
module GossipLimit {
  import opened Types
  import opened VersionVectors
  import opened Gossip

  ghost predicate NeverTwice(ids: set<ModuleId>) {
    forall run: seq<Network>, steps, k, i, item ::
      IsRun(run, steps, ids) && 0 <= k < |run| && i in run[k].nodes ==> multiset(run[k].nodes[i].delivered)[item] <= 1
  }

  /** No event is delivered twice in any run, exactly when there are no more modules
      than entries. */
  lemma NeverTwiceIff(ids: set<ModuleId>)
    requires INVALID_MODULE_ID !in ids
    ensures NeverTwice(ids) <==> |ids| <= 8
  {
    if |ids| <= CAPACITY {
      forall run: seq<Network>, steps, k, i, item | IsRun(run, steps, ids) && 0 <= k < |run| && i in run[k].nodes
        ensures multiset(run[k].nodes[i].delivered)[item] <= 1
      {
        RunKeepsInv(run, steps, ids, k);
        AtMostOnce(run, steps, ids, k, i, item);
      }
    } else {
      var t, w, r, item := DeliversTwice(ids);
      assert t.run[|t.run| - 1].nodes[r] == w.nodes[r];
    }
  }

  datatype Trace = Trace(run: seq<Network>, steps: seq<Step>)

  ghost predicate TraceOf(t: Trace, ids: set<ModuleId>, w: Network) {
    IsRun(t.run, t.steps, ids) && t.run[|t.run| - 1] == w
  }

  lemma Then(t: Trace, ids: set<ModuleId>, w: Network, s: Step, n: Node, out: seq<Packet>) returns (t': Trace, w': Network)
    requires TraceOf(t, ids, w) && Enabled(w, s) && React(w.nodes[s.i], s) == (n, out)
    ensures w' == Network(w.nodes[s.i := n], w.packets + set p | p in out) && TraceOf(t', ids, w')
  {
    w' := Gossip.After(w, s);
    t' := Trace(t.run + [w'], t.steps + [s]);
    forall k | 0 <= k < |t'.steps| ensures Enabled(t'.run[k], t'.steps[k]) && t'.run[k + 1] == Gossip.After(t'.run[k], t'.steps[k]) {
      if k < |t.steps| {
        assert t'.run[k] == t.run[k] && t'.run[k + 1] == t.run[k + 1];
      }
    }
  }

  const HELLO: Body := Body(1, [], 0)

  function First(o: ModuleId): Item {
    Item(o, 1, HELLO)
  }

  function Letter(o: ModuleId, r: ModuleId): Packet {
    Packet.Gossip(r, o, Event(First(o), 0))
  }

  /** A fresh module takes r as its neighbour, emits an event and sends it. */
  lemma Tells(t: Trace, ids: set<ModuleId>, w: Network, o: ModuleId, r: ModuleId) returns (t': Trace, w': Network)
    requires TraceOf(t, ids, w) && o in w.nodes && r in w.nodes && o != r && r != INVALID_MODULE_ID && w.nodes[o] == Init(o)
    ensures TraceOf(t', ids, w') && w'.nodes.Keys == w.nodes.Keys && w'.packets == w.packets + {Letter(o, r)}
    ensures forall k :: k in w.nodes && k != o ==> w'.nodes[k] == w.nodes[k]
  {
    var joined := Init(o).(neighbors := [r]);
    assert [] + [r] == [r];
    var t1, w1 := Then(t, ids, w, Joins(o, r), joined, []);
    var emitted := Emit(joined, HELLO).0;
    var t2, w2 := Then(t1, ids, w1, Emits(o, HELLO), emitted, []);
    FlushesOne(emitted, o, r);
    t', w' := Then(t2, ids, w2, Ticks(o), Flush(emitted).0, Flush(emitted).1);
    assert Letter(o, r) in Flush(emitted).1;
  }

  lemma FlushesOne(n: Node, o: ModuleId, r: ModuleId)
    requires n.id == o && n.neighbors == [r] && n.pending == [First(o)]
    ensures Flush(n).1 == [Letter(o, r)]
  {
    assert FlushTo(n, [r], []) == FlushTo(n, [], n.pending) == [];
    assert FlushTo(n, [r], [First(o)]) == [Sent(n, r, Event(First(o), 0))] + FlushTo(n, [r], []);
  }

  ghost predicate NoEntry(v: seq<Entry>, o: ModuleId) {
    forall k :: 0 <= k < |v| ==> v[k].id != o
  }

  /** Module r receives the event of a module its vector has no entry for. */
  lemma Hears(t: Trace, ids: set<ModuleId>, w: Network, o: ModuleId, r: ModuleId) returns (t': Trace, w': Network)
    requires TraceOf(t, ids, w) && r in w.nodes && Letter(o, r) in w.packets
    requires w.nodes[r].buffered == [] && w.nodes[r].neighbors == [] && NoEntry(w.nodes[r].vv, o)
    ensures TraceOf(t', ids, w') && w' == Network(w.nodes[r := Deliver(w.nodes[r], First(o))], w.packets)
  {
    var n := w.nodes[r];
    assert Find(n.vv, o) == |n.vv|;
    t', w' := Then(t, ids, w, Receives(r, Letter(o, r)), Deliver(n, First(o)), []);
    assert w.packets + (set p | p in []) == w.packets;
  }

  /** Module r has heard of so many modules, and others are still fresh. */
  ghost predicate Heard(w: Network, ids: set<ModuleId>, r: ModuleId, count: nat, fresh_: set<ModuleId>) {
    && w.nodes.Keys == ids && r in ids && r !in fresh_ && fresh_ <= ids
    && w.nodes[r].buffered == [] && w.nodes[r].neighbors == [] && |w.nodes[r].vv| == count
    && forall o :: o in fresh_ ==> w.nodes[o] == Init(o) && NoEntry(w.nodes[r].vv, o)
  }

  lemma HearsOne(t: Trace, ids: set<ModuleId>, w: Network, r: ModuleId, count: nat, fresh_: set<ModuleId>, o: ModuleId)
    returns (t': Trace, w': Network)
    requires TraceOf(t, ids, w) && Heard(w, ids, r, count, fresh_) && o in fresh_ && r != INVALID_MODULE_ID && count < CAPACITY
    ensures TraceOf(t', ids, w') && Heard(w', ids, r, count + 1, fresh_ - {o})
  {
    var t1, w1 := Tells(t, ids, w, o, r);
    t', w' := Hears(t1, ids, w1, o, r);
    assert Find(w.nodes[r].vv, o) == |w.nodes[r].vv|;
    assert w'.nodes[r].vv == w.nodes[r].vv + [Entry(o, 1)];
  }

  lemma {:induction false} HearsAll(t: Trace, ids: set<ModuleId>, w: Network, r: ModuleId, count: nat, todo: set<ModuleId>, last: ModuleId)
    returns (t': Trace, w': Network)
    requires TraceOf(t, ids, w) && Heard(w, ids, r, count, todo + {last}) && last !in todo
    requires r != INVALID_MODULE_ID && count + |todo| == CAPACITY
    ensures TraceOf(t', ids, w') && Heard(w', ids, r, CAPACITY, {last})
    decreases |todo|
  {
    if todo == {} {
      assert todo + {last} == {last};
      t', w' := t, w;
    } else {
      var o :| o in todo;
      assert |todo - {o}| == |todo| - 1;
      var t1, w1 := HearsOne(t, ids, w, r, count, todo + {last}, o);
      assert todo + {last} - {o} == (todo - {o}) + {last};
      t', w' := HearsAll(t1, ids, w1, r, count + 1, todo - {o}, last);
    }
  }

  /** With a ninth module: once the vector of r is full, the first event of one more
      module reaches r twice and is delivered twice. */
  lemma DeliversTwice(ids: set<ModuleId>) returns (t: Trace, w: Network, r: ModuleId, item: Item)
    requires INVALID_MODULE_ID !in ids && |ids| > CAPACITY
    ensures TraceOf(t, ids, w) && r in w.nodes && multiset(w.nodes[r].delivered)[item] >= 2
  {
    r :| r in ids;
    var others := ids - {r};
    assert |others| == |ids| - 1;
    var last :| last in others;
    assert |others - {last}| == |others| - 1;
    var seven := Part(others - {last}, CAPACITY - 1);
    w := Start(ids);
    t := Trace([w], []);
    assert w.nodes[r].vv == [Entry(r, 0)];
    t, w := HearsAll(t, ids, w, r, 1, seven, last);
    t, w := HearsTwice(t, ids, w, r, last);
    item := First(last);
  }

  lemma HearsTwice(t: Trace, ids: set<ModuleId>, w: Network, r: ModuleId, o: ModuleId) returns (t': Trace, w': Network)
    requires TraceOf(t, ids, w) && Heard(w, ids, r, CAPACITY, {o}) && r != INVALID_MODULE_ID
    ensures TraceOf(t', ids, w') && r in w'.nodes && multiset(w'.nodes[r].delivered)[First(o)] >= 2
  {
    var t1, w1 := Tells(t, ids, w, o, r);
    var n := w1.nodes[r];
    assert Find(n.vv, o) == |n.vv| && Deliver(n, First(o)).vv == n.vv;
    var t2, w2 := Hears(t1, ids, w1, o, r);
    t', w' := Hears(t2, ids, w2, o, r);
    assert w'.nodes[r].delivered == n.delivered + [First(o), First(o)];
  }

  // ------------------------------------------------------- the summary merge

  /** A node that merges a vector it is shown keeps its knowledge in order exactly when
      the vector shows nothing new: an entry that rises skips events. */
  lemma SummaryMergeKeepsOrderIff(n: Node, h: History, shown: seq<Entry>)
    requires NodeOk(n, h) && |h| <= CAPACITY && Valid(shown) && Ids(shown) <= h.Keys
    ensures Knows(n.(vv := Merge(n.vv, shown)), h) <==> Leq(shown, n.vv)
  {
    var m := Merge(n.vv, shown);
    if Leq(shown, n.vv) {
      NothingNew(n.vv, shown);
    } else {
      var o: ModuleId :| Lookup(shown, o) > Lookup(n.vv, o);
      assert shown[Find(shown, o)].id == o;
      assert |h.Keys| == |h|;
      SubsetSize(Wanted(n.vv, shown), h.Keys);
      MergeIsMax(n.vv, shown);
      assert Lookup(m, o) == Max(Lookup(n.vv, o), Lookup(shown, o));
      assert InOrder(n, h, o);
      assert !InOrder(n.(vv := m), h, o);
    }
  }

  lemma {:induction false} NothingNew(local: seq<Entry>, remote: seq<Entry>)
    requires Valid(remote) && Leq(remote, local)
    ensures Merge(local, remote) == local
  {
    if remote != [] {
      var front, e := remote[..|remote| - 1], remote[|remote| - 1];
      forall id: ModuleId ensures Lookup(front, id) <= Lookup(local, id) {
        LookupInFront(remote, id);
        assert Lookup(remote, id) <= Lookup(local, id);
      }
      NothingNew(local, front);
      FindAt(remote, |remote| - 1);
      assert Lookup(remote, e.id) <= Lookup(local, e.id);
    }
  }
}
