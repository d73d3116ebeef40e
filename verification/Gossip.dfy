/**
 The event gossip of a module: events are numbered at their origin, flooded to
 neighbours, and handed to the application in the origin's order.

 The functions on `Node` say what each handler does and sends; `Network` runs any
 number of nodes over a growing set of packets, so a packet may be lost, delayed,
 reordered or received twice. Delivery in order, without gaps and once is proved
 for up to as many modules as a version vector has entries.
 */
module Gossip {
  import opened Types
  import opened VersionVectors

  const MAX_HOPS: nat := 3
  const MAX_PENDING: nat := 8
  const MAX_BUFFERED: nat := 4
  const MAX_NEIGHBORS: nat := 7
  const MAX_PAYLOAD: nat := 20

  datatype Body = Body(eventType: bv8, payload: seq<bv8>, stamp: nat)

  /** What an origin says: its `seqNo`-th event. */
  datatype Item = Item(origin: ModuleId, seqNo: nat, body: Body)

  /** An item on its way. */
  datatype Event = Event(item: Item, hop: nat)

  datatype Packet =
    | Gossip(to: ModuleId, from: ModuleId, event: Event)
    | Request(to: ModuleId, from: ModuleId, origin: ModuleId, first: nat, last: nat)

  /** `own` is what the module has emitted and stored; `delivered` is what its
      application has been told, its own events included. */
  datatype Node = Node(
    id: ModuleId, vv: seq<Entry>, localSequence: nat, own: seq<Item>, neighbors: seq<ModuleId>,
    pending: seq<Item>, buffered: seq<Event>, delivered: seq<Item>)

  datatype Result = Ok | InvalidArg | NoMemory | AlreadyExists | NotFound

  function Init(id: ModuleId): Node {
    Node(id, Set([], id, 0), 1, [], [], [], [], [])
  }

  function AddNeighbor(n: Node, id: ModuleId): (Node, Result) {
    if id == INVALID_MODULE_ID then (n, InvalidArg)
    else if id in n.neighbors then (n, AlreadyExists)
    else if |n.neighbors| >= MAX_NEIGHBORS then (n, NoMemory)
    else (n.(neighbors := n.neighbors + [id]), Ok)
  }

  function Emit(n: Node, body: Body): (Node, Result) {
    if |body.payload| > MAX_PAYLOAD then (n, InvalidArg)
    else if |n.pending| >= MAX_PENDING then (n, NoMemory)
    else
      var item := Item(n.id, n.localSequence, body);
      (n.(localSequence := n.localSequence + 1, own := n.own + [item], pending := n.pending + [item],
          vv := Set(n.vv, n.id, Lookup(n.vv, n.id) + 1), delivered := n.delivered + [item]),
       Ok)
  }

  /** Sending raises the hop count of other modules' events. */
  function Sent(n: Node, to: ModuleId, e: Event): Packet {
    Gossip(to, n.id, if e.item.origin != n.id then e.(hop := e.hop + 1) else e)
  }

  /** Every pending event to every neighbour. */
  function FlushTo(n: Node, neighbors: seq<ModuleId>, items: seq<Item>): seq<Packet>
    decreases |neighbors|, |items|
  {
    if neighbors == [] then []
    else if items == [] then FlushTo(n, neighbors[1..], n.pending)
    else [Sent(n, neighbors[0], Event(items[0], 0))] + FlushTo(n, neighbors, items[1..])
  }

  function Flush(n: Node): (Node, seq<Packet>) {
    (n.(pending := []), FlushTo(n, n.neighbors, n.pending))
  }

  function Forward(n: Node, neighbors: seq<ModuleId>, sender: ModuleId, e: Event): seq<Packet> {
    if neighbors == [] then []
    else (if neighbors[0] != sender then [Sent(n, neighbors[0], e)] else []) + Forward(n, neighbors[1..], sender, e)
  }

  function Deliver(n: Node, item: Item): Node {
    n.(vv := Set(n.vv, item.origin, item.seqNo), delivered := n.delivered + [item])
  }

  /** One pass over the buffered events, taking out those that are next. */
  function Pass(n: Node, i: nat): Node
    decreases |n.buffered| - i
  {
    if i >= |n.buffered| then n else
    var item := n.buffered[i].item;
    if item.seqNo == Lookup(n.vv, item.origin) + 1
    then Pass(Deliver(n, item).(buffered := n.buffered[..i] + n.buffered[i + 1..]), i)
    else Pass(n, i + 1)
  }

  function Handle(n: Node, e: Event, sender: ModuleId): (Node, Result, seq<Packet>) {
    var item := e.item;
    var known := Lookup(n.vv, item.origin);
    if item.seqNo <= known then (n, AlreadyExists, [])
    else if item.seqNo > known + 1 then
      (if |n.buffered| < MAX_BUFFERED then n.(buffered := n.buffered + [e]) else n,
       NotFound,
       [Request(sender, n.id, item.origin, known + 1, item.seqNo - 1)])
    else
      (Pass(Deliver(n, item), 0),
       Ok,
       if e.hop < MAX_HOPS then Forward(Deliver(n, item), n.neighbors, sender, e.(hop := e.hop + 1)) else [])
  }

  /** Stored events asked for by number; only an origin answers. */
  function Serve(n: Node, requester: ModuleId, origin: ModuleId, first: nat, last: nat): seq<Packet>
    decreases last + 1 - first
  {
    if origin != n.id || first > last then []
    else (if 1 <= first <= |n.own| then [Sent(n, requester, Event(n.own[first - 1], 0))] else [])
         + Serve(n, requester, origin, first + 1, last)
  }

  // ----------------------------------------------------------------- network

  datatype Network = Network(nodes: map<ModuleId, Node>, packets: set<Packet>)

  datatype Step =
    | Emits(i: ModuleId, body: Body)
    | Ticks(i: ModuleId)
    | Joins(i: ModuleId, neighbor: ModuleId)
    | Receives(i: ModuleId, packet: Packet)

  predicate Enabled(w: Network, s: Step) {
    && s.i in w.nodes
    && (s.Joins? ==> s.neighbor in w.nodes)
    && (s.Receives? ==> s.packet in w.packets && s.packet.to == s.i)
  }

  /** What the acting node becomes and sends. */
  function React(n: Node, s: Step): (Node, seq<Packet>) {
    match s
    case Emits(_, body) => (Emit(n, body).0, [])
    case Ticks(_) => Flush(n)
    case Joins(_, neighbor) => (AddNeighbor(n, neighbor).0, [])
    case Receives(_, Gossip(_, from, e)) => var (n', _, out) := Handle(n, e, from); (n', out)
    case Receives(_, Request(_, from, o, first, last)) => (n, Serve(n, from, o, first, last))
  }

  ghost function After(w: Network, s: Step): Network
    requires Enabled(w, s)
  {
    var (n, out) := React(w.nodes[s.i], s);
    Network(w.nodes[s.i := n], w.packets + set p | p in out)
  }

  ghost function Start(ids: set<ModuleId>): Network {
    Network(map i | i in ids :: Init(i), {})
  }

  ghost predicate IsRun(run: seq<Network>, steps: seq<Step>, ids: set<ModuleId>) {
    && |run| == |steps| + 1 && run[0] == Start(ids)
    && forall k :: 0 <= k < |steps| ==> Enabled(run[k], steps[k]) && run[k + 1] == After(run[k], steps[k])
  }

  // --------------------------------------------------------------- invariant

  /** What has been emitted so far, by origin. */
  type History = map<ModuleId, seq<Item>>

  ghost function Emitted(w: Network): History {
    map i | i in w.nodes :: w.nodes[i].own
  }

  predicate Genuine(h: History, item: Item) {
    item.origin in h && 1 <= item.seqNo <= |h[item.origin]| && h[item.origin][item.seqNo - 1] == item
  }

  /** An event counts two hops each time it is passed on, so it is passed on twice. */
  predicate GenuineEvent(h: History, e: Event) {
    Genuine(h, e.item) && e.hop in {0, 2, 4}
  }

  ghost predicate PacketOk(h: History, p: Packet) {
    p.Gossip? ==> GenuineEvent(h, p.event)
  }

  ghost predicate AllGenuine(h: History, items: seq<Item>) {
    forall k :: 0 <= k < |items| ==> Genuine(h, items[k])
  }

  ghost predicate AllGenuineEvents(h: History, events: seq<Event>) {
    forall k :: 0 <= k < |events| ==> GenuineEvent(h, events[k])
  }

  ghost predicate AllPacketsOk(h: History, out: seq<Packet>) {
    forall k :: 0 <= k < |out| ==> PacketOk(h, out[k])
  }

  /** The items of one origin, in the order given. */
  function From(items: seq<Item>, o: ModuleId): seq<Item> {
    if items == [] then [] else
    From(items[..|items| - 1], o) + if items[|items| - 1].origin == o then items[|items| - 1..] else []
  }

  /** What a node has delivered from o is what o emitted first, up to its entry for o. */
  ghost predicate InOrder(n: Node, h: History, o: ModuleId)
    requires o in h
  {
    Lookup(n.vv, o) <= |h[o]| && From(n.delivered, o) == h[o][..Lookup(n.vv, o)]
  }

  ghost predicate Numbered(items: seq<Item>, o: ModuleId) {
    forall k :: 0 <= k < |items| ==> items[k].origin == o && items[k].seqNo == k + 1
  }

  ghost predicate Knows(n: Node, h: History) {
    && Valid(n.vv) && Ids(n.vv) <= h.Keys
    && forall o {:trigger InOrder(n, h, o)} :: o in h ==> InOrder(n, h, o)
  }

  ghost predicate NodeOk(n: Node, h: History) {
    && n.id in h && h[n.id] == n.own && Numbered(n.own, n.id)
    && n.localSequence == |n.own| + 1 && Lookup(n.vv, n.id) == |n.own|
    && Knows(n, h)
    && |n.pending| <= MAX_PENDING && |n.buffered| <= MAX_BUFFERED
    && AllGenuine(h, n.pending) && (forall k :: 0 <= k < |n.pending| ==> n.pending[k].origin == n.id)
    && AllGenuine(h, n.delivered)
    && AllGenuineEvents(h, n.buffered)
  }

  ghost predicate MemberOk(nodes: map<ModuleId, Node>, h: History, i: ModuleId)
    requires i in nodes
  {
    nodes[i].id == i && NodeOk(nodes[i], h)
  }

  ghost predicate Inv(w: Network) {
    var h := Emitted(w);
    && (forall i {:trigger MemberOk(w.nodes, h, i)} :: i in w.nodes ==> MemberOk(w.nodes, h, i))
    && (forall p :: p in w.packets ==> PacketOk(h, p))
  }

  // ------------------------------------------------------------- one delivery

  lemma HasRoomForMembers(v: seq<Entry>, ids: set<ModuleId>, id: ModuleId)
    requires Valid(v) && Ids(v) <= ids && id in ids && |ids| <= CAPACITY
    ensures HasRoom(v, id)
  {
    if Find(v, id) == |v| {
      IdsCounted(v);
      SubsetSize(Ids(v) + {id}, ids);
    }
  }

  lemma DeliverKeepsOk(n: Node, h: History, item: Item)
    requires NodeOk(n, h) && |h| <= CAPACITY
    requires Genuine(h, item) && item.seqNo == Lookup(n.vv, item.origin) + 1
    ensures NodeOk(Deliver(n, item), h)
  {
    var n', o := Deliver(n, item), item.origin;
    assert |h.Keys| == |h|;
    HasRoomForMembers(n.vv, h.Keys, o);
    IdsAfterSet(n.vv, o, item.seqNo);
    LookupAfterSet(n.vv, o, item.seqNo, n.id);
    assert InOrder(n, h, o);
    assert o != n.id;
    forall p | p in h ensures InOrder(n', h, p) {
      assert InOrder(n, h, p);
      LookupAfterSet(n.vv, o, item.seqNo, p);
      assert n'.delivered[..|n.delivered|] == n.delivered;
      if p == o { assert h[o][..item.seqNo] == h[o][..item.seqNo - 1] + [item]; }
    }
  }

  lemma SameKnowing(n: Node, h: History, n': Node)
    requires Knows(n, h) && n'.vv == n.vv && n'.delivered == n.delivered
    ensures Knows(n', h)
  {
    forall o | o in h ensures InOrder(n', h, o) { assert InOrder(n, h, o); }
  }

  lemma {:induction false} PassKeepsOk(n: Node, h: History, i: nat)
    requires NodeOk(n, h) && |h| <= CAPACITY
    ensures NodeOk(Pass(n, i), h)
    decreases |n.buffered| - i
  {
    if i < |n.buffered| {
      var item := n.buffered[i].item;
      if item.seqNo == Lookup(n.vv, item.origin) + 1 {
        DeliverKeepsOk(n, h, item);
        var rest := n.buffered[..i] + n.buffered[i + 1..];
        SameKnowing(Deliver(n, item), h, Deliver(n, item).(buffered := rest));
        PassKeepsOk(Deliver(n, item).(buffered := rest), h, i);
      } else {
        PassKeepsOk(n, h, i + 1);
      }
    }
  }

  lemma {:induction false} ForwardIsGenuine(n: Node, h: History, neighbors: seq<ModuleId>, sender: ModuleId, e: Event)
    requires Genuine(h, e.item) && e.hop in {1, 3} && e.item.origin != n.id
    ensures AllPacketsOk(h, Forward(n, neighbors, sender, e))
  {
    if neighbors != [] { ForwardIsGenuine(n, h, neighbors[1..], sender, e); }
  }

  lemma {:induction false} FlushIsGenuine(n: Node, h: History, neighbors: seq<ModuleId>, items: seq<Item>)
    requires AllGenuine(h, n.pending) && AllGenuine(h, items)
    requires forall k :: 0 <= k < |n.pending| ==> n.pending[k].origin == n.id
    requires forall k :: 0 <= k < |items| ==> items[k].origin == n.id
    ensures AllPacketsOk(h, FlushTo(n, neighbors, items))
    decreases |neighbors|, |items|
  {
    if neighbors == [] {
    } else if items == [] {
      FlushIsGenuine(n, h, neighbors[1..], n.pending);
    } else {
      FlushIsGenuine(n, h, neighbors, items[1..]);
    }
  }

  lemma {:induction false} ServeIsGenuine(n: Node, h: History, requester: ModuleId, origin: ModuleId, first: nat, last: nat)
    requires n.id in h && h[n.id] == n.own && Numbered(n.own, n.id)
    ensures AllPacketsOk(h, Serve(n, requester, origin, first, last))
    decreases last + 1 - first
  {
    if origin == n.id && first <= last { ServeIsGenuine(n, h, requester, origin, first + 1, last); }
  }

  // ----------------------------------------------------------------- one step

  /** The history grows at its ends. */
  ghost predicate Grows(h: History, h': History) {
    h.Keys == h'.Keys && forall o {:trigger IsStart(h, h', o)} :: o in h ==> IsStart(h, h', o)
  }

  ghost predicate IsStart(h: History, h': History, o: ModuleId)
    requires o in h && o in h'
  {
    |h[o]| <= |h'[o]| && h[o] == h'[o][..|h[o]|]
  }

  lemma GenuineStays(h: History, h': History, item: Item)
    requires Grows(h, h') && Genuine(h, item)
    ensures Genuine(h', item)
  {
    assert IsStart(h, h', item.origin);
    assert h'[item.origin][..|h[item.origin]|][item.seqNo - 1] == item;
  }

  lemma AllStay(h: History, h': History, items: seq<Item>, events: seq<Event>)
    requires Grows(h, h') && AllGenuine(h, items) && AllGenuineEvents(h, events)
    ensures AllGenuine(h', items) && AllGenuineEvents(h', events)
  {
    forall k | 0 <= k < |items| ensures Genuine(h', items[k]) { GenuineStays(h, h', items[k]); }
    forall k | 0 <= k < |events| ensures GenuineEvent(h', events[k]) { GenuineStays(h, h', events[k].item); }
  }

  lemma OthersStayOk(n: Node, h: History, h': History)
    requires NodeOk(n, h) && Grows(h, h') && h'[n.id] == n.own
    ensures NodeOk(n, h')
  {
    AllStay(h, h', n.pending, n.buffered);
    AllStay(h, h', n.delivered, []);
    forall o | o in h' ensures InOrder(n, h', o) {
      assert InOrder(n, h, o) && IsStart(h, h', o);
      assert h'[o][..|h[o]|][..Lookup(n.vv, o)] == h'[o][..Lookup(n.vv, o)];
    }
  }

  lemma EmitKeepsKnowing(n: Node, h: History, item: Item)
    requires NodeOk(n, h) && |h| <= CAPACITY && item.origin == n.id && item.seqNo == |n.own| + 1
    ensures var h' := h[n.id := n.own + [item]];
            Grows(h, h') && Knows(Deliver(n, item), h') && Lookup(Deliver(n, item).vv, n.id) == |n.own| + 1
  {
    var n', h' := Deliver(n, item), h[n.id := n.own + [item]];
    assert |h.Keys| == |h|;
    HasRoomForMembers(n.vv, h.Keys, n.id);
    IdsAfterSet(n.vv, n.id, item.seqNo);
    LookupAfterSet(n.vv, n.id, item.seqNo, n.id);
    forall o | o in h' ensures InOrder(n', h', o) {
      assert InOrder(n, h, o);
      LookupAfterSet(n.vv, n.id, item.seqNo, o);
      assert n'.delivered[..|n.delivered|] == n.delivered;
    }
    forall o | o in h ensures IsStart(h, h', o) {}
  }

  lemma EmitKeepsOk(n: Node, h: History, body: Body)
    requires NodeOk(n, h) && |h| <= CAPACITY
    ensures var n' := Emit(n, body).0; var h' := h[n.id := n'.own]; Grows(h, h') && NodeOk(n', h')
  {
    var (n', r) := Emit(n, body);
    var h' := h[n.id := n'.own];
    if r == Ok {
      var item := Item(n.id, n.localSequence, body);
      EmitKeepsKnowing(n, h, item);
      SameKnowing(Deliver(n, item), h', n');
      AllStay(h, h', n.pending, n.buffered);
      AllStay(h, h', n.delivered, []);
      assert Genuine(h', item);
    } else {
      assert h' == h;
    }
  }

  ghost predicate Reacted(n: Node, h: History, n': Node, out: seq<Packet>) {
    var h' := h[n.id := n'.own];
    Grows(h, h') && NodeOk(n', h') && n'.id == n.id && AllPacketsOk(h', out)
  }

  /** A node that emits nothing leaves the history as it is. */
  lemma Quietly(n: Node, h: History, n': Node, out: seq<Packet>)
    requires NodeOk(n, h) && NodeOk(n', h) && n'.id == n.id && n'.own == n.own && AllPacketsOk(h, out)
    ensures Reacted(n, h, n', out)
  {
    assert h[n.id := n'.own] == h;
  }

  lemma BufferKeepsOk(n: Node, h: History, e: Event)
    requires NodeOk(n, h) && GenuineEvent(h, e) && |n.buffered| < MAX_BUFFERED
    ensures NodeOk(n.(buffered := n.buffered + [e]), h)
  {
    SameKnowing(n, h, n.(buffered := n.buffered + [e]));
  }

  lemma NextIsForeign(n: Node, h: History, item: Item)
    requires NodeOk(n, h) && Genuine(h, item) && item.seqNo == Lookup(n.vv, item.origin) + 1
    ensures item.origin != n.id
  {}

  lemma HandleKeepsOk(n: Node, h: History, e: Event, sender: ModuleId)
    requires NodeOk(n, h) && |h| <= CAPACITY && GenuineEvent(h, e)
    ensures Reacted(n, h, Handle(n, e, sender).0, Handle(n, e, sender).2)
  {
    var item := e.item;
    var known := Lookup(n.vv, item.origin);
    var (n', r, out) := Handle(n, e, sender);
    if item.seqNo <= known {
      Quietly(n, h, n, []);
    } else if item.seqNo > known + 1 {
      if |n.buffered| < MAX_BUFFERED { BufferKeepsOk(n, h, e); }
      Quietly(n, h, n', out);
    } else {
      var n1 := Deliver(n, item);
      NextIsForeign(n, h, item);
      DeliverKeepsOk(n, h, item);
      PassKeepsOk(n1, h, 0);
      PassKeepsOwn(n1, 0);
      if e.hop < MAX_HOPS {
        ForwardIsGenuine(n1, h, n.neighbors, sender, e.(hop := e.hop + 1));
      }
      Quietly(n, h, n', out);
    }
  }

  lemma {:induction false} PassKeepsOwn(n: Node, i: nat)
    ensures Pass(n, i).own == n.own && Pass(n, i).id == n.id
    decreases |n.buffered| - i
  {
    if i < |n.buffered| {
      var item := n.buffered[i].item;
      if item.seqNo == Lookup(n.vv, item.origin) + 1 {
        PassKeepsOwn(Deliver(n, item).(buffered := n.buffered[..i] + n.buffered[i + 1..]), i);
      } else {
        PassKeepsOwn(n, i + 1);
      }
    }
  }

  /** Whatever a node does, it stays in order with a history that has only grown
      by its own events, and sends only what was emitted. */
  lemma ReactKeepsOk(n: Node, h: History, s: Step)
    requires NodeOk(n, h) && |h| <= CAPACITY
    requires s.Receives? ==> PacketOk(h, s.packet)
    ensures Reacted(n, h, React(n, s).0, React(n, s).1)
  {
    match s
    case Emits(_, body) => EmitKeepsOk(n, h, body);
    case Ticks(_) =>
      FlushIsGenuine(n, h, n.neighbors, n.pending);
      SameKnowledge(n, h, n.(pending := []));
      Quietly(n, h, n.(pending := []), FlushTo(n, n.neighbors, n.pending));
    case Joins(_, neighbor) =>
      var n' := AddNeighbor(n, neighbor).0;
      SameKnowledge(n, h, n');
      Quietly(n, h, n', []);
    case Receives(_, Gossip(_, from, e)) => HandleKeepsOk(n, h, e, from);
    case Receives(_, Request(_, from, o, first, last)) =>
      ServeIsGenuine(n, h, from, o, first, last);
      Quietly(n, h, n, Serve(n, from, o, first, last));
  }

  lemma SameKnowledge(n: Node, h: History, n': Node)
    requires NodeOk(n, h) && n' == n.(pending := n'.pending, neighbors := n'.neighbors) && n'.pending in {n.pending, []}
    ensures NodeOk(n', h)
  {
    SameKnowing(n, h, n');
  }

  lemma HistorySize(w: Network)
    ensures Emitted(w).Keys == w.nodes.Keys && |Emitted(w)| == |w.nodes|
  {
    assert |Emitted(w).Keys| == |Emitted(w)| && |w.nodes.Keys| == |w.nodes|;
  }

  lemma StepKeepsInv(w: Network, s: Step)
    requires Inv(w) && Enabled(w, s) && |w.nodes| <= CAPACITY
    ensures Inv(After(w, s)) && After(w, s).nodes.Keys == w.nodes.Keys
  {
    var h, n := Emitted(w), w.nodes[s.i];
    HistorySize(w);
    assert MemberOk(w.nodes, h, s.i);
    assert s.Receives? ==> PacketOk(h, s.packet);
    ReactKeepsOk(n, h, s);
    Recorded(w, s.i, React(n, s).0, React(n, s).1);
  }

  /** Putting one node's reaction back into the network. */
  lemma Recorded(w: Network, i: ModuleId, n: Node, out: seq<Packet>)
    requires Inv(w) && i in w.nodes && Reacted(w.nodes[i], Emitted(w), n, out)
    ensures Inv(Network(w.nodes[i := n], w.packets + set p | p in out))
  {
    var h, w' := Emitted(w), Network(w.nodes[i := n], w.packets + set p | p in out);
    assert MemberOk(w.nodes, h, i);
    var h' := h[i := n.own];
    assert Emitted(w') == h';
    NodesStayOk(w, i, n, h');
    PacketsStayOk(w.packets, out, h, h');
    assert forall p :: p in w'.packets ==> p in w.packets || p in out;
  }

  lemma NodesStayOk(w: Network, i: ModuleId, n: Node, h': History)
    requires Inv(w) && i in w.nodes && Grows(Emitted(w), h') && h' == Emitted(w)[i := n.own]
    requires NodeOk(n, h') && n.id == i
    ensures var nodes := w.nodes[i := n]; forall k :: k in nodes ==> MemberOk(nodes, h', k)
  {
    var nodes := w.nodes[i := n];
    forall k | k in nodes ensures MemberOk(nodes, h', k) {
      if k != i {
        assert MemberOk(w.nodes, Emitted(w), k);
        OthersStayOk(w.nodes[k], Emitted(w), h');
      }
    }
  }

  lemma PacketsStayOk(packets: set<Packet>, out: seq<Packet>, h: History, h': History)
    requires Grows(h, h') && AllPacketsOk(h', out) && forall p :: p in packets ==> PacketOk(h, p)
    ensures forall p :: p in packets || p in out ==> PacketOk(h', p)
  {
    forall p | p in packets ensures PacketOk(h', p) {
      if p.Gossip? { GenuineStays(h, h', p.event.item); }
    }
  }

  lemma {:induction false} RunKeepsInv(run: seq<Network>, steps: seq<Step>, ids: set<ModuleId>, k: nat)
    requires IsRun(run, steps, ids) && |ids| <= CAPACITY && k < |run|
    ensures Inv(run[k]) && run[k].nodes.Keys == ids
  {
    if k == 0 {
      StartIsOk(ids);
    } else {
      RunKeepsInv(run, steps, ids, k - 1);
      assert |run[k - 1].nodes.Keys| == |run[k - 1].nodes|;
      StepKeepsInv(run[k - 1], steps[k - 1]);
    }
  }

  lemma StartIsOk(ids: set<ModuleId>)
    ensures Inv(Start(ids)) && Start(ids).nodes.Keys == ids
  {
    var w := Start(ids);
    var h := Emitted(w);
    forall i | i in ids ensures MemberOk(w.nodes, h, i) {
      var n := w.nodes[i];
      assert n.vv == [Entry(i, 0)];
      assert forall o: ModuleId :: Lookup(n.vv, o) == 0;
      assert forall o :: o in h ==> InOrder(n, h, o);
    }
  }

  lemma {:induction false} FromKeepsCount(items: seq<Item>, item: Item)
    ensures multiset(From(items, item.origin))[item] == multiset(items)[item]
  {
    if items != [] {
      var front, last := items[..|items| - 1], items[|items| - 1];
      FromKeepsCount(front, item);
      var picked := if last.origin == item.origin then [last] else [];
      assert items[|items| - 1..] == [last];
      assert From(items, item.origin) == From(front, item.origin) + picked;
      CountConcat(From(front, item.origin), picked, item);
      assert items == front + [last];
      CountConcat(front, [last], item);
    }
  }

  lemma CountConcat<T>(a: seq<T>, b: seq<T>, x: T)
    ensures multiset(a + b)[x] == multiset(a)[x] + multiset(b)[x]
  {}

  lemma {:induction false} NumberedOnce(items: seq<Item>, o: ModuleId, item: Item)
    requires Numbered(items, o)
    ensures multiset(items)[item] <= 1 && (item in items ==> item.seqNo <= |items|)
  {
    if items != [] {
      var front := items[..|items| - 1];
      NumberedOnce(front, o, item);
      assert items == front + [items[|items| - 1]];
    }
  }

  lemma DeliveredOnce(n: Node, h: History, item: Item)
    requires NodeOk(n, h) && (forall o :: o in h ==> Numbered(h[o], o))
    ensures multiset(n.delivered)[item] <= 1
  {
    if item in n.delivered {
      var p := item.origin;
      assert Genuine(h, item) && InOrder(n, h, p);
      FromKeepsCount(n.delivered, item);
      NumberedOnce(h[p][..Lookup(n.vv, p)], p, item);
    }
  }

  /** In every reachable state, what node i has delivered from o is the first
      vv(o) events o emitted, in order; and vv(o) never exceeds o's own. */
  lemma Delivery(run: seq<Network>, steps: seq<Step>, ids: set<ModuleId>, k: nat, i: ModuleId, o: ModuleId)
    requires IsRun(run, steps, ids) && |ids| <= CAPACITY && k < |run| && i in ids && o in ids
    ensures i in run[k].nodes && o in run[k].nodes
    ensures var n, origin := run[k].nodes[i], run[k].nodes[o];
            && Lookup(n.vv, o) <= Lookup(origin.vv, o) == |origin.own|
            && From(n.delivered, o) == origin.own[..Lookup(n.vv, o)]
  {
    RunKeepsInv(run, steps, ids, k);
    var w := run[k];
    assert MemberOk(w.nodes, Emitted(w), i) && MemberOk(w.nodes, Emitted(w), o);
    assert InOrder(w.nodes[i], Emitted(w), o);
  }

  /** Every event is delivered at most once, and only if its origin emitted it. */
  lemma AtMostOnce(run: seq<Network>, steps: seq<Step>, ids: set<ModuleId>, k: nat, i: ModuleId, item: Item)
    requires IsRun(run, steps, ids) && |ids| <= CAPACITY && k < |run| && i in ids
    ensures i in run[k].nodes && multiset(run[k].nodes[i].delivered)[item] <= 1
    ensures item in run[k].nodes[i].delivered ==> item.origin in run[k].nodes && item in run[k].nodes[item.origin].own
  {
    RunKeepsInv(run, steps, ids, k);
    var n, h := run[k].nodes[i], Emitted(run[k]);
    forall o | o in h ensures Numbered(h[o], o) { assert MemberOk(run[k].nodes, h, o); }
    assert MemberOk(run[k].nodes, h, i);
    DeliveredOnce(n, h, item);
    if item in n.delivered { assert Genuine(h, item); }
  }

  /** An event handled again is turned away, exactly when the vector had room for
      its origin: past the capacity the number is not kept and the application is
      told twice. */
  lemma HandledTwice(n: Node, e: Event, sender: ModuleId)
    requires Valid(n.vv) && Handle(n, e, sender).1 == Ok
    ensures var n' := Handle(n, e, sender).0;
            (Handle(n', e, sender).1 == AlreadyExists <==> HasRoom(n.vv, e.item.origin))
            && (Handle(n', e, sender).1 == Ok <==> !HasRoom(n.vv, e.item.origin))
  {
    var n1 := Deliver(n, e.item);
    LookupAfterSet(n.vv, e.item.origin, e.item.seqNo, e.item.origin);
    PassOnlyRaises(n1, 0, e.item.origin);
    IdsAfterSet(n.vv, e.item.origin, e.item.seqNo);
  }

  lemma {:induction false} PassOnlyRaises(n: Node, i: nat, o: ModuleId)
    requires Valid(n.vv)
    ensures Valid(Pass(n, i).vv) && Lookup(n.vv, o) <= Lookup(Pass(n, i).vv, o)
    ensures !HasRoom(n.vv, o) ==> Lookup(Pass(n, i).vv, o) == Lookup(n.vv, o)
    decreases |n.buffered| - i
  {
    if i < |n.buffered| {
      var item := n.buffered[i].item;
      if item.seqNo == Lookup(n.vv, item.origin) + 1 {
        var n' := Deliver(n, item).(buffered := n.buffered[..i] + n.buffered[i + 1..]);
        LookupAfterSet(n.vv, item.origin, item.seqNo, o);
        RoomStaysGone(n.vv, item.origin, item.seqNo, o);
        PassOnlyRaises(n', i, o);
      } else {
        PassOnlyRaises(n, i + 1, o);
      }
    }
  }

  lemma RoomStaysGone(v: seq<Entry>, id: ModuleId, n: nat, o: ModuleId)
    requires Valid(v)
    ensures !HasRoom(v, o) ==> !HasRoom(Set(v, id, n), o)
  {
    if !HasRoom(v, o) {
      assert forall k :: 0 <= k < |v| ==> v[k].id != o;
      var v' := Set(v, id, n);
      assert forall k :: 0 <= k < |v'| ==> v'[k].id != o;
    }
  }

  lemma ForwardNext(n: Node, neighbors: seq<ModuleId>, k: nat, sender: ModuleId, e: Event, sent: seq<Packet>)
    requires k < |neighbors|
    ensures var sent' := if neighbors[k] != sender then sent + [Sent(n, neighbors[k], e)] else sent;
            sent + Forward(n, neighbors[k..], sender, e) == sent' + Forward(n, neighbors[k + 1..], sender, e)
  {
    assert neighbors[k..][1..] == neighbors[k + 1..];
  }

  // ---------------------------------------------------------------- in place

  /** The context as its handlers update it. `own` and `delivered` stand for the
      event store and the application. */
  class GossipCtx {
    const myId: ModuleId
    const vv: VersionVector
    const neighbors: array<ModuleId>
    const pending: array<Item>
    const buffered: array<Event>
    var localSequence: nat
    var neighborCount: nat
    var pendingCount: nat
    var bufferedCount: nat
    ghost var own: seq<Item>
    ghost var delivered: seq<Item>

    ghost predicate Ready() reads this, vv, vv.entries, neighbors, pending, buffered {
      && vv.Ok()
      && neighbors.Length == MAX_NEIGHBORS && pending.Length == MAX_PENDING && buffered.Length == MAX_BUFFERED
      && neighborCount <= MAX_NEIGHBORS && pendingCount <= MAX_PENDING && bufferedCount <= MAX_BUFFERED
    }

    ghost function View(): Node reads this, vv, vv.entries, neighbors, pending, buffered
      requires Ready()
    {
      Node(myId, vv.View(), localSequence, own, neighbors[..neighborCount],
           pending[..pendingCount], buffered[..bufferedCount], delivered)
    }

    constructor (id: ModuleId)
      ensures Ready() && View() == Init(id)
    {
      var vector := new VersionVector();
      var _ := vector.Put(id, 0);
      myId, vv, localSequence := id, vector, 1;
      neighbors := new ModuleId[MAX_NEIGHBORS](_ => INVALID_MODULE_ID);
      pending := new Item[MAX_PENDING](_ => Item(INVALID_MODULE_ID, 0, Body(0, [], 0)));
      buffered := new Event[MAX_BUFFERED](_ => Event(Item(INVALID_MODULE_ID, 0, Body(0, [], 0)), 0));
      neighborCount, pendingCount, bufferedCount := 0, 0, 0;
      own, delivered := [], [];
    }

    method AddNeighborTo(id: ModuleId) returns (r: Result)
      requires Ready()
      modifies this, neighbors
      ensures Ready() && (View(), r) == AddNeighbor(old(View()), id)
    {
      if id == INVALID_MODULE_ID { return InvalidArg; }
      for i := 0 to neighborCount
        invariant id !in neighbors[..i]
      {
        if neighbors[i] == id { return AlreadyExists; }
      }
      if neighborCount >= MAX_NEIGHBORS { return NoMemory; }
      neighbors[neighborCount] := id;
      neighborCount := neighborCount + 1;
      assert View().neighbors == old(View()).neighbors + [id];
      return Result.Ok;
    }

    method EmitEvent(body: Body) returns (r: Result)
      requires Ready()
      modifies this, vv, vv.entries, pending
      ensures Ready() && (View(), r) == Emit(old(View()), body)
    {
      if |body.payload| > MAX_PAYLOAD { return InvalidArg; }
      if pendingCount >= MAX_PENDING { return NoMemory; }
      var item := Item(myId, localSequence, body);
      KeepPending(item);
      CountOwn(item);
      return Result.Ok;
    }

    method CountOwn(item: Item)
      requires Ready()
      modifies this`localSequence, this`own, this`delivered, vv, vv.entries
      ensures Ready()
      ensures View() == old(View().(localSequence := View().localSequence + 1, own := View().own + [item],
                                    vv := Set(View().vv, myId, Lookup(View().vv, myId) + 1), delivered := View().delivered + [item]))
    {
      localSequence := localSequence + 1;
      own := own + [item];
      var current := vv.Get(myId);
      var _ := vv.Put(myId, current + 1);
      delivered := delivered + [item];
    }

    method KeepPending(item: Item)
      requires Ready() && pendingCount < MAX_PENDING
      modifies this`pendingCount, pending
      ensures Ready() && View() == old(View()).(pending := old(View()).pending + [item])
    {
      pending[pendingCount] := item;
      pendingCount := pendingCount + 1;
      assert pending[..pendingCount] == old(View()).pending + [item];
    }

    method DeliverItem(item: Item)
      requires Ready()
      modifies this`delivered, vv, vv.entries
      ensures Ready() && View() == Deliver(old(View()), item)
    {
      var _ := vv.Put(item.origin, item.seqNo);
      delivered := delivered + [item];
    }

    /** Shifts the later buffered events down by one. */
    method RemoveBuffered(i: nat)
      requires Ready() && i < bufferedCount
      modifies this`bufferedCount, buffered
      ensures Ready()
      ensures View() == old(View()).(buffered := old(View()).buffered[..i] + old(View()).buffered[i + 1..])
    {
      for j := i to bufferedCount - 1
        modifies buffered
        invariant forall k :: 0 <= k < i ==> buffered[k] == old(buffered[k])
        invariant forall k :: i <= k < j ==> buffered[k] == old(buffered[k + 1])
        invariant forall k :: j <= k < bufferedCount ==> buffered[k] == old(buffered[k])
      {
        buffered[j] := buffered[j + 1];
      }
      bufferedCount := bufferedCount - 1;
      assert buffered[..bufferedCount] == old(View()).buffered[..i] + old(View()).buffered[i + 1..];
    }

    method ProcessBuffered()
      requires Ready()
      modifies this`bufferedCount, this`delivered, buffered, vv, vv.entries
      ensures Ready() && View() == Pass(old(View()), 0)
    {
      var i := 0;
      while i < bufferedCount
        invariant Ready() && Pass(View(), i) == Pass(old(View()), 0)
        decreases bufferedCount - i
      {
        var item := buffered[i].item;
        var known := vv.Get(item.origin);
        if item.seqNo == known + 1 {
          DeliverItem(item);
          RemoveBuffered(i);
        } else {
          i := i + 1;
        }
      }
    }

    /** An event after a gap is kept, if there is room. */
    method KeepBuffered(e: Event)
      requires Ready()
      modifies this`bufferedCount, buffered
      ensures Ready()
      ensures View() == old(if |View().buffered| < MAX_BUFFERED then View().(buffered := View().buffered + [e]) else View())
    {
      if bufferedCount < MAX_BUFFERED {
        buffered[bufferedCount] := e;
        bufferedCount := bufferedCount + 1;
        assert buffered[..bufferedCount] == old(View()).buffered + [e];
      }
    }

    method HandleEvent(e: Event, sender: ModuleId) returns (r: Result, sent: seq<Packet>)
      requires Ready()
      modifies this, buffered, vv, vv.entries
      ensures Ready() && (View(), r, sent) == Handle(old(View()), e, sender)
    {
      var item := e.item;
      var known := vv.Get(item.origin);
      if item.seqNo <= known { return AlreadyExists, []; }
      if item.seqNo > known + 1 {
        KeepBuffered(e);
        return NotFound, [Request(sender, myId, item.origin, known + 1, item.seqNo - 1)];
      }
      sent := AcceptNext(e, sender);
      return Result.Ok, sent;
    }

    /** The next event: delivered, passed on, and followed by those it was waited for. */
    method AcceptNext(e: Event, sender: ModuleId) returns (sent: seq<Packet>)
      requires Ready() && e.item.seqNo == Lookup(View().vv, e.item.origin) + 1
      modifies this`bufferedCount, this`delivered, buffered, vv, vv.entries
      ensures Ready() && (View(), Result.Ok, sent) == Handle(old(View()), e, sender)
    {
      DeliverItem(e.item);
      sent := [];
      if e.hop < MAX_HOPS {
        sent := ForwardEvent(sender, e.(hop := e.hop + 1));
      }
      ProcessBuffered();
    }

    method ForwardEvent(sender: ModuleId, e: Event) returns (sent: seq<Packet>)
      requires Ready()
      ensures sent == Forward(View(), View().neighbors, sender, e)
    {
      sent := [];
      ghost var n, all := View(), Forward(View(), View().neighbors, sender, e);
      assert n.neighbors[0..] == n.neighbors;
      for k := 0 to neighborCount
        invariant all == sent + Forward(n, n.neighbors[k..], sender, e)
      {
        ForwardNext(n, n.neighbors, k, sender, e, sent);
        assert neighbors[k] == n.neighbors[k] && Send(neighbors[k], e) == Sent(n, neighbors[k], e);
        if neighbors[k] != sender {
          sent := sent + [Send(neighbors[k], e)];
        }
      }
      assert n.neighbors[neighborCount..] == [];
    }

    function Send(to: ModuleId, e: Event): Packet {
      Gossip(to, myId, if e.item.origin != myId then e.(hop := e.hop + 1) else e)
    }

    method FlushPending() returns (sent: seq<Packet>)
      requires Ready()
      modifies this`pendingCount
      ensures Ready() && (View(), sent) == Flush(old(View()))
    {
      sent := [];
      ghost var n := View();
      for k := 0 to neighborCount
        invariant sent + FlushTo(n, n.neighbors[k..], n.pending) == FlushTo(n, n.neighbors, n.pending)
      {
        for i := 0 to pendingCount
          invariant sent + FlushTo(n, n.neighbors[k..], n.pending[i..]) == FlushTo(n, n.neighbors, n.pending)
        {
          sent := sent + [Send(neighbors[k], Event(pending[i], 0))];
          assert n.pending[i..][1..] == n.pending[i + 1..];
          assert n.neighbors[k..][0] == neighbors[k];
        }
        assert n.pending[pendingCount..] == [];
        assert n.neighbors[k..][1..] == n.neighbors[k + 1..];
      }
      assert n.neighbors[neighborCount..] == [] && sent == FlushTo(n, n.neighbors, n.pending);
      pendingCount := 0;
      assert View() == n.(pending := []);
    }
  }
}
