/**
 How events spread: which packets each handler sends, neither more nor fewer, and that
 an event gets across two links.
 */
module GossipFlood {
  import opened Types
  import opened VersionVectors
  import opened Gossip
  import opened GossipLimit

  // ---------------------------------------------------------- what is sent

  lemma CountMore<T>(x: T, xs: seq<T>, y: T)
    ensures multiset([x] + xs)[y] == multiset(xs)[y] + if x == y then 1 else 0
  {}

  lemma CountTail<T>(xs: seq<T>, y: T)
    requires xs != []
    ensures multiset(xs)[y] == multiset(xs[1..])[y] + if xs[0] == y then 1 else 0
  {
    assert xs == [xs[0]] + xs[1..];
  }

  /** What reaches a neighbour with the delivered event of another module: two hops on. */
  function PassedOn(n: Node, e: Event, to: ModuleId): Packet {
    Packet.Gossip(to, n.id, Event(e.item, e.hop + 2))
  }

  lemma {:induction false} ForwardCounts(n: Node, neighbors: seq<ModuleId>, sender: ModuleId, e: Event, to: ModuleId)
    requires e.item.origin != n.id
    ensures multiset(Forward(n, neighbors, sender, e))[Sent(n, to, e)] == if to == sender then 0 else multiset(neighbors)[to]
  {
    if neighbors != [] {
      var rest := Forward(n, neighbors[1..], sender, e);
      ForwardCounts(n, neighbors[1..], sender, e, to);
      CountTail(neighbors, to);
      if neighbors[0] != sender {
        CountMore(Sent(n, neighbors[0], e), rest, Sent(n, to, e));
      } else {
        assert [] + rest == rest;
      }
    }
  }

  lemma {:induction false} ForwardOnly(n: Node, neighbors: seq<ModuleId>, sender: ModuleId, e: Event)
    ensures forall p :: p in Forward(n, neighbors, sender, e) ==> p == Sent(n, p.to, e)
  {
    if neighbors != [] { ForwardOnly(n, neighbors[1..], sender, e); }
  }

  /** The next event of another module is passed on exactly while its hop count is below
      three: to each neighbour but the sender as often as it is listed, and nothing else
      is sent. */
  lemma NextIsPassedOn(n: Node, e: Event, sender: ModuleId, to: ModuleId)
    requires e.item.origin != n.id && e.item.seqNo == Lookup(n.vv, e.item.origin) + 1
    ensures var out := Handle(n, e, sender).2;
            && multiset(out)[PassedOn(n, e, to)] == (if e.hop < 3 && to != sender then multiset(n.neighbors)[to] else 0)
            && forall p :: p in out ==> p == PassedOn(n, e, p.to)
  {
    if e.hop < 3 {
      var next := e.(hop := e.hop + 1);
      ForwardCounts(Deliver(n, e.item), n.neighbors, sender, next, to);
      ForwardOnly(Deliver(n, e.item), n.neighbors, sender, next);
    }
  }

  /** Put as a set. */
  lemma NextReachesNeighbors(n: Node, e: Event, sender: ModuleId, p: Packet)
    requires e.item.origin != n.id && e.item.seqNo == Lookup(n.vv, e.item.origin) + 1
    ensures p in Handle(n, e, sender).2 <==>
            e.hop < 3 && p.Gossip? && p.to in n.neighbors && p.to != sender && p == PassedOn(n, e, p.to)
  {
    NextIsPassedOn(n, e, sender, p.to);
  }

  /** A duplicate is answered by nothing; an event after a gap by one request for the
      events between, and it is kept as the last in the buffer if that has room. */
  lemma OthersAreAnswered(n: Node, e: Event, sender: ModuleId)
    requires e.item.seqNo != Lookup(n.vv, e.item.origin) + 1
    ensures var known := Lookup(n.vv, e.item.origin); var (n', r, out) := Handle(n, e, sender);
            if e.item.seqNo <= known then n' == n && r == AlreadyExists && out == []
            else && r == NotFound && out == [Request(sender, n.id, e.item.origin, known + 1, e.item.seqNo - 1)]
                 && n' == n.(buffered := if |n.buffered| < 4 then n.buffered + [e] else n.buffered)
  {}

  /** The events to one neighbour. */
  function Row(n: Node, to: ModuleId, items: seq<Item>): seq<Packet> {
    if items == [] then [] else [Sent(n, to, Event(items[0], 0))] + Row(n, to, items[1..])
  }

  lemma {:induction false} RowCounts(n: Node, to: ModuleId, items: seq<Item>, k: ModuleId, item: Item)
    requires item.origin == n.id && forall j :: 0 <= j < |items| ==> items[j].origin == n.id
    ensures multiset(Row(n, to, items))[Packet.Gossip(k, n.id, Event(item, 0))] == if k == to then multiset(items)[item] else 0
  {
    if items != [] {
      RowCounts(n, to, items[1..], k, item);
      CountTail(items, item);
      CountMore(Sent(n, to, Event(items[0], 0)), Row(n, to, items[1..]), Packet.Gossip(k, n.id, Event(item, 0)));
    }
  }

  /** A row at a time. */
  lemma {:induction false} FlushByRows(n: Node, neighbors: seq<ModuleId>, items: seq<Item>)
    requires neighbors != []
    ensures FlushTo(n, neighbors, items) == Row(n, neighbors[0], items) + FlushTo(n, neighbors[1..], n.pending)
    decreases |items|
  {
    if items != [] {
      FlushByRows(n, neighbors, items[1..]);
      var first := [Sent(n, neighbors[0], Event(items[0], 0))];
      var row, rest := Row(n, neighbors[0], items[1..]), FlushTo(n, neighbors[1..], n.pending);
      assert first + (row + rest) == (first + row) + rest;
    } else {
      assert FlushTo(n, neighbors, items) == [] + FlushTo(n, neighbors[1..], n.pending);
    }
  }

  lemma {:induction false} FlushCounts(n: Node, neighbors: seq<ModuleId>, to: ModuleId, item: Item)
    requires item.origin == n.id && forall j :: 0 <= j < |n.pending| ==> n.pending[j].origin == n.id
    ensures multiset(FlushTo(n, neighbors, n.pending))[Packet.Gossip(to, n.id, Event(item, 0))]
            == multiset(neighbors)[to] * multiset(n.pending)[item]
    decreases |neighbors|
  {
    if neighbors != [] {
      FlushByRows(n, neighbors, n.pending);
      FlushCounts(n, neighbors[1..], to, item);
      RowCounts(n, neighbors[0], n.pending, to, item);
      CountTail(neighbors, to);
      CountConcat(Row(n, neighbors[0], n.pending), FlushTo(n, neighbors[1..], n.pending), Packet.Gossip(to, n.id, Event(item, 0)));
      if neighbors[0] == to {
        Distributes(multiset(neighbors[1..])[to], multiset(n.pending)[item]);
      }
    }
  }

  lemma Distributes(a: nat, b: nat)
    ensures (a + 1) * b == a * b + b
  {}

  lemma {:induction false} FlushOnly(n: Node, neighbors: seq<ModuleId>, items: seq<Item>)
    requires forall j :: 0 <= j < |n.pending| ==> n.pending[j].origin == n.id
    requires forall j :: 0 <= j < |items| ==> items[j] in n.pending
    ensures forall p :: p in FlushTo(n, neighbors, items) ==>
              p.Gossip? && p == Packet.Gossip(p.to, n.id, Event(p.event.item, 0)) && p.event.item in n.pending
    decreases |neighbors|, |items|
  {
    if neighbors != [] {
      if items == [] { FlushOnly(n, neighbors[1..], n.pending); } else { FlushOnly(n, neighbors, items[1..]); }
    }
  }

  /** A tick sends each pending event to each neighbour, as often as either is listed, and
      nothing else; after it nothing is pending. */
  lemma FlushSendsAll(n: Node, to: ModuleId, item: Item)
    requires item.origin == n.id && forall j :: 0 <= j < |n.pending| ==> n.pending[j].origin == n.id
    ensures var (n', out) := Flush(n);
            && n' == n.(pending := [])
            && multiset(out)[Packet.Gossip(to, n.id, Event(item, 0))] == multiset(n.neighbors)[to] * multiset(n.pending)[item]
            && forall p :: p in out ==> p.Gossip? && p == Packet.Gossip(p.to, n.id, Event(p.event.item, 0)) && p.event.item in n.pending
  {
    FlushCounts(n, n.neighbors, to, item);
    FlushOnly(n, n.neighbors, n.pending);
  }

  /** A request is answered by its origin alone, with the events it has of those asked
      for, at hop 0. */
  lemma {:induction false} ServeSends(n: Node, requester: ModuleId, origin: ModuleId, first: nat, last: nat, p: Packet)
    requires forall j :: 0 <= j < |n.own| ==> n.own[j].origin == n.id
    ensures p in Serve(n, requester, origin, first, last) <==>
            && origin == n.id && p.Gossip? && p.to == requester && p.from == n.id && p.event.hop == 0
            && exists j :: 0 <= j < |n.own| && first <= j + 1 <= last && p.event.item == n.own[j]
    decreases last + 1 - first
  {
    if origin == n.id && first <= last {
      ServeSends(n, requester, origin, first + 1, last, p);
      var rest := Serve(n, requester, origin, first + 1, last);
      if 1 <= first <= |n.own| {
        var one := Packet.Gossip(requester, n.id, Event(n.own[first - 1], 0));
        assert Serve(n, requester, origin, first, last) == [one] + rest;
      } else {
        assert Serve(n, requester, origin, first, last) == [] + rest;
      }
    }
  }

  /** Emitting numbers, stores, queues and delivers the event, unless it is too long or
      eight are pending. */
  lemma EmitOutcome(n: Node, body: Body)
    requires Valid(n.vv)
    ensures var (n', r) := Emit(n, body); var item := Item(n.id, n.localSequence, body);
            && r == (if |body.payload| > 20 then InvalidArg else if |n.pending| >= 8 then NoMemory else Ok)
            && (r != Ok ==> n' == n)
            && (r == Ok ==>
                  && n'.localSequence == n.localSequence + 1 && n'.own == n.own + [item] && n'.pending == n.pending + [item]
                  && n'.delivered == n.delivered + [item] && n'.id == n.id && n'.neighbors == n.neighbors && n'.buffered == n.buffered
                  && (HasRoom(n.vv, n.id) ==> Lookup(n'.vv, n.id) == Lookup(n.vv, n.id) + 1)
                  && forall o: ModuleId :: o != n.id ==> Lookup(n'.vv, o) == Lookup(n.vv, o))
  {
    forall o: ModuleId ensures Lookup(Set(n.vv, n.id, Lookup(n.vv, n.id) + 1), o)
                               == if o == n.id && HasRoom(n.vv, n.id) then Lookup(n.vv, n.id) + 1 else Lookup(n.vv, o)
    {
      LookupAfterSet(n.vv, n.id, Lookup(n.vv, n.id) + 1, o);
    }
  }

  /** A neighbour is added at the end, unless it is number 0, there already, or the eighth. */
  lemma JoinOutcome(n: Node, id: ModuleId)
    ensures AddNeighbor(n, id) == if id == 0 then (n, InvalidArg) else if id in n.neighbors then (n, AlreadyExists)
                                  else if |n.neighbors| > 6 then (n, NoMemory) else (n.(neighbors := n.neighbors + [id]), Ok)
  {}

  // ------------------------------------------------------ across two links

  ghost predicate FreshOver(n: Node, id: ModuleId, neighbors: seq<ModuleId>) {
    n == Init(id).(neighbors := neighbors)
  }

  /** From the start, an event that o emits reaches r, which delivers it, although o never
      sends to r: m, a neighbour of o, passes it on. */
  lemma CrossesTwoLinks(ids: set<ModuleId>, o: ModuleId, m: ModuleId, r: ModuleId) returns (t: Trace, w: Network)
    requires {o, m, r} <= ids && o != m && m != r && o != r && INVALID_MODULE_ID !in ids
    ensures TraceOf(t, ids, w) && r in w.nodes && w.nodes[r].delivered == [First(o)]
    ensures forall p :: p in w.packets && p.to == r ==> p.from == m
  {
    t, w := Linked(ids, o, m, r);
    t, w := Tells(t, ids, w, o, m);
    t, w := Relays(t, ids, w, o, m, r);
    var packet := Packet.Gossip(r, m, Event(First(o), 2));
    var n := w.nodes[r];
    assert n.vv == [Entry(r, 0)] && Find(n.vv, o) == |n.vv|;
    var n' := Deliver(n, First(o));
    assert Handle(n, packet.event, m) == (n', Ok, []);
    t, w := Then(t, ids, w, Receives(r, packet), n', []);
  }

  /** m takes r as its neighbour, and o too. */
  lemma Linked(ids: set<ModuleId>, o: ModuleId, m: ModuleId, r: ModuleId) returns (t: Trace, w: Network)
    requires {o, m, r} <= ids && o != m && m != r && o != r && INVALID_MODULE_ID !in ids
    ensures TraceOf(t, ids, w) && w.nodes.Keys == ids && w.nodes[o] == Init(o) && w.nodes[r] == Init(r)
    ensures FreshOver(w.nodes[m], m, [o, r]) && w.packets == {}
  {
    w := Start(ids);
    t := Trace([w], []);
    assert [] + [o] == [o] && [o] + [r] == [o, r];
    t, w := Then(t, ids, w, Joins(m, o), Init(m).(neighbors := [o]), []);
    t, w := Then(t, ids, w, Joins(m, r), Init(m).(neighbors := [o, r]), []);
  }

  /** m delivers the event of o and passes it on to r, not back. */
  lemma Relays(t: Trace, ids: set<ModuleId>, w: Network, o: ModuleId, m: ModuleId, r: ModuleId) returns (t': Trace, w': Network)
    requires TraceOf(t, ids, w) && {o, m, r} <= w.nodes.Keys && o != m && m != r && o != r
    requires FreshOver(w.nodes[m], m, [o, r]) && Letter(o, m) in w.packets
    ensures TraceOf(t', ids, w') && w'.nodes.Keys == w.nodes.Keys && Packet.Gossip(r, m, Event(First(o), 2)) in w'.packets
    ensures forall k :: k in w.nodes && k != m ==> w'.nodes[k] == w.nodes[k]
    ensures forall p :: p in w'.packets && p !in w.packets ==> p.from == m
  {
    var n, e := w.nodes[m], Event(First(o), 0);
    assert n.vv == [Entry(m, 0)] && Find(n.vv, o) == |n.vv|;
    var (n', _, out) := Handle(n, e, o);
    forall p | p in out ensures p.from == m { NextReachesNeighbors(n, e, o, p); }
    NextReachesNeighbors(n, e, o, PassedOn(n, e, r));
    assert PassedOn(n, e, r) == Packet.Gossip(r, m, Event(First(o), 2));
    t', w' := Then(t, ids, w, Receives(m, Letter(o, m)), n', out);
  }
}
