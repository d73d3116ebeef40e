/**
 Raft leader election: the handlers of one node, and a cluster of such nodes
 over a network that may lose, duplicate, delay and reorder messages. The
 network is the growing set of messages ever sent; delivering one does not
 remove it, and a broadcast may come back to its sender.
 */
module Raft {
  import opened Types
  import Partition

  datatype Role = Follower | Candidate | Leader

  const ELECTION_TIMEOUT_MIN_US: nat := 150000
  const ELECTION_TIMEOUT_RANGE_US: nat := 150000
  const HEARTBEAT_INTERVAL_US: nat := 50000
  const ELECTION_MAX_US: nat := 400000

  /** Offset drawn by the xorshift generator for a new election timeout. */
  type Draw = d: nat | d < ELECTION_TIMEOUT_RANGE_US

  datatype Msg =
    | RequestVote(term: nat, candidate: ModuleId)
    | VoteResponse(term: nat, voter: ModuleId, granted: bool, to: ModuleId)
    | Heartbeat(term: nat, leader: ModuleId)

  datatype Node = Node(
    id: ModuleId, term: nat, votedFor: ModuleId, role: Role, leader: ModuleId,
    electionTimeout: TimeUs, lastHeartbeat: TimeUs, electionStart: TimeUs,
    votesReceived: nat, votesNeeded: nat, granted: set<ModuleId>)

  /** The partition context a node may hold; None is the NULL pointer. */
  type Gate = Option<Partition.State>

  predicate MayElect(gate: Gate) { gate.Some? ==> Partition.CanElect(gate.value) }

  predicate MayVote(gate: Gate) { gate.Some? ==> Partition.CanVote(gate.value) }

  // ---------------------------------------------------------------- one node

  function Init(id: ModuleId, totalModules: nat): Node {
    Node(id, 0, INVALID_MODULE_ID, Follower, INVALID_MODULE_ID, 0, 0, 0, 0, totalModules / 2 + 1, {})
  }

  function ResetTimer(n: Node, now: TimeUs, draw: Draw): Node {
    n.(electionTimeout := ELECTION_TIMEOUT_MIN_US + draw, lastHeartbeat := now)
  }

  function BecomeFollower(n: Node, term: nat, now: TimeUs, draw: Draw): Node {
    ResetTimer(n.(role := Follower, term := term, votedFor := INVALID_MODULE_ID), now, draw)
  }

  function BecomeCandidate(n: Node, now: TimeUs, draw: Draw): (Node, set<Msg>) {
    var c := n.(role := Candidate, term := n.term + 1, votedFor := n.id, electionStart := now,
                votesReceived := 1, granted := {n.id});
    (ResetTimer(c, now, draw), {RequestVote(c.term, c.id)})
  }

  function BecomeLeader(n: Node, now: TimeUs): (Node, set<Msg>) {
    (n.(role := Leader, leader := n.id, lastHeartbeat := now), {Heartbeat(n.term, n.id)})
  }

  function Tick(n: Node, now: TimeUs, draw: Draw, gate: Gate): (Node, set<Msg>) {
    if n.lastHeartbeat == 0 then (ResetTimer(n, now, draw), {}) else
    var elapsed := Elapsed(now, n.lastHeartbeat);
    match n.role
    case Follower =>
      if elapsed < n.electionTimeout then (n, {})
      else if MayElect(gate) then BecomeCandidate(n, now, draw)
      else (ResetTimer(n, now, draw), {})
    case Candidate =>
      if n.votesReceived >= n.votesNeeded then BecomeLeader(n, now)
      else if elapsed >= n.electionTimeout then
        if MayElect(gate) then BecomeCandidate(n, now, draw)
        else (BecomeFollower(n, n.term, now, draw), {})
      else if Elapsed(now, n.electionStart) >= ELECTION_MAX_US then (BecomeFollower(n, n.term, now, draw), {})
      else (n, {})
    case Leader =>
      var beat := elapsed >= HEARTBEAT_INTERVAL_US;
      var m := if beat then n.(lastHeartbeat := now) else n;
      (if MayElect(gate) then m else BecomeFollower(m, m.term, now, draw),
       if beat then {Heartbeat(n.term, n.id)} else {})
  }

  function OnHeartbeat(n: Node, leader: ModuleId, term: nat, now: TimeUs, draw: Draw): Node {
    var m := if term > n.term then BecomeFollower(n, term, now, draw) else n;
    if term < m.term then m else
    var l := m.(leader := leader);
    if l.role != Follower then BecomeFollower(l, term, now, draw) else ResetTimer(l, now, draw)
  }

  function OnVoteRequest(n: Node, candidate: ModuleId, term: nat, now: TimeUs, draw: Draw, gate: Gate): (Node, set<Msg>) {
    var m := if term > n.term then BecomeFollower(n, term, now, draw) else n;
    var grant := term == m.term && (m.votedFor == INVALID_MODULE_ID || m.votedFor == candidate) && MayVote(gate);
    var v := if grant then ResetTimer(m.(votedFor := candidate), now, draw) else m;
    (v, {VoteResponse(v.term, v.id, grant, candidate)})
  }

  function OnVoteResponse(n: Node, voter: ModuleId, term: nat, granted: bool, now: TimeUs): (Node, set<Msg>) {
    if n.role != Candidate || term != n.term || !granted || voter in n.granted then (n, {}) else
    var m := n.(granted := n.granted + {voter}, votesReceived := n.votesReceived + 1);
    if m.votesReceived >= m.votesNeeded then BecomeLeader(m, now) else (m, {})
  }

  function StepDown(n: Node, now: TimeUs, draw: Draw): Node {
    if n.role == Leader then BecomeFollower(n, n.term, now, draw) else n
  }

  // ----------------------------------------------------------------- cluster

  datatype Event =
    | Ticks(now: TimeUs, draw: Draw, gate: Gate)
    | Receives(msg: Msg, now: TimeUs, draw: Draw, gate: Gate)
    | StepsDown(now: TimeUs, draw: Draw)

  datatype Cluster = Cluster(nodes: map<ModuleId, Node>, msgs: set<Msg>)

  function React(n: Node, ev: Event): (Node, set<Msg>) {
    match ev
    case Ticks(now, draw, gate) => Tick(n, now, draw, gate)
    case StepsDown(now, draw) => (StepDown(n, now, draw), {})
    case Receives(RequestVote(t, c), now, draw, gate) => OnVoteRequest(n, c, t, now, draw, gate)
    case Receives(Heartbeat(t, l), now, draw, gate) => (OnHeartbeat(n, l, t, now, draw), {})
    case Receives(VoteResponse(t, v, g, _), now, draw, gate) => OnVoteResponse(n, v, t, g, now)
  }

  /** Only sent messages arrive, and a vote response only at its addressee. */
  predicate Enabled(c: Cluster, i: ModuleId, ev: Event) {
    && i in c.nodes
    && (ev.Receives? ==> ev.msg in c.msgs && (ev.msg.VoteResponse? ==> ev.msg.to == i))
  }

  function Step(c: Cluster, i: ModuleId, ev: Event): Cluster
    requires Enabled(c, i, ev)
  {
    var (n, out) := React(c.nodes[i], ev);
    Cluster(c.nodes[i := n], c.msgs + out)
  }

  function InitCluster(ids: set<ModuleId>): Cluster {
    Cluster(map i | i in ids :: Init(i, |ids|), {})
  }

  predicate LeaderOf(c: Cluster, i: ModuleId, term: nat) {
    i in c.nodes && c.nodes[i].role == Leader && c.nodes[i].term == term
  }

  /** A granted vote cast for somebody else. */
  predicate ForeignVote(m: Msg) {
    m.VoteResponse? && m.granted && m.to != m.voter
  }

  predicate SameVoterAndTerm(m: Msg, m': Msg) {
    ForeignVote(m) && ForeignVote(m') && m.term == m'.term && m.voter == m'.voter
  }

  // --------------------------------------------------------------- invariant

  ghost predicate NodeInv(c: Cluster, ids: set<ModuleId>, i: ModuleId)
    requires i in c.nodes
  {
    var n := c.nodes[i];
    && n.id == i
    && n.votesNeeded == |ids| / 2 + 1
    && (n.role != Follower ==>
          && n.votedFor == i
          && i in n.granted && n.granted <= ids
          && n.votesReceived == |n.granted|
          && forall u :: u in n.granted && u != i ==> VoteResponse(n.term, u, true, i) in c.msgs)
    && (n.role == Leader ==> n.votesReceived >= n.votesNeeded)
  }

  /** A vote for somebody else binds its voter for as long as the term lasts,
      even though stepping down clears `votedFor`: only candidates and leaders
      step down without a new term, and they voted for themselves. */
  ghost predicate MsgInv(c: Cluster, ids: set<ModuleId>, m: Msg)
    requires c.nodes.Keys == ids
  {
    match m
    case RequestVote(_, cand) => cand in ids
    case Heartbeat(_, _) => true
    case VoteResponse(t, v, _, to) =>
      && v in ids && to in ids
      && (ForeignVote(m) ==> t <= c.nodes[v].term
                             && (t == c.nodes[v].term ==> c.nodes[v].role == Follower && c.nodes[v].votedFor == to))
  }

  ghost predicate Inv(c: Cluster, ids: set<ModuleId>) {
    && INVALID_MODULE_ID !in ids
    && c.nodes.Keys == ids
    && (forall i :: i in ids ==> NodeInv(c, ids, i))
    && (forall m :: m in c.msgs ==> MsgInv(c, ids, m))
    && (forall m, m' :: m in c.msgs && m' in c.msgs && SameVoterAndTerm(m, m') ==> m.to == m'.to)
  }

  /** What one handler can do to its node, whichever handler it is. */
  ghost predicate Reaction(n: Node, n': Node, out: set<Msg>, msgs: set<Msg>, ids: set<ModuleId>) {
    && n'.id == n.id && n'.votesNeeded == n.votesNeeded && n.term <= n'.term
    && (n'.role != Follower && n'.term == n.term ==>
          && n.role != Follower && n'.votedFor == n.votedFor
          && ((n'.granted == n.granted && n'.votesReceived == n.votesReceived)
              || exists u :: u !in n.granted && n'.granted == n.granted + {u}
                             && n'.votesReceived == n.votesReceived + 1 && VoteResponse(n.term, u, true, n.id) in msgs))
    && (n'.role != Follower && n'.term != n.term ==>
          && n'.role == Candidate && n'.votedFor == n.id && n'.granted == {n.id} && n'.votesReceived == 1
          && RequestVote(n'.term, n.id) in out)
    && (n'.role == Leader ==> (n.role == Leader && n'.votesReceived == n.votesReceived) || n'.votesReceived >= n'.votesNeeded)
    && (n.role == Follower && n.votedFor != INVALID_MODULE_ID && n'.term == n.term ==>
          n'.role == Follower && n'.votedFor == n.votedFor)
    && (forall m :: m in out ==> match m
          case RequestVote(t, cand) => cand == n.id && n.term < t == n'.term && n'.role == Candidate
          case Heartbeat(_, _) => true
          case VoteResponse(t, v, g, to) =>
            && v == n.id && to in ids
            && (g ==> t == n'.term && n'.votedFor == to
                      && (n.term == t ==> n.votedFor in {INVALID_MODULE_ID, to})
                      && (n'.role != Follower ==> n'.term == n.term)))
    && (forall m, m' :: m in out && m' in out && m.VoteResponse? && m'.VoteResponse? ==> m == m')
  }

  lemma TickReacts(n: Node, now: TimeUs, draw: Draw, gate: Gate, msgs: set<Msg>, ids: set<ModuleId>)
    requires n.id in ids
    ensures Reaction(n, Tick(n, now, draw, gate).0, Tick(n, now, draw, gate).1, msgs, ids)
  {}

  lemma HeartbeatReacts(n: Node, leader: ModuleId, term: nat, now: TimeUs, draw: Draw, msgs: set<Msg>, ids: set<ModuleId>)
    ensures Reaction(n, OnHeartbeat(n, leader, term, now, draw), {}, msgs, ids)
  {}

  lemma VoteRequestReacts(n: Node, candidate: ModuleId, term: nat, now: TimeUs, draw: Draw, gate: Gate,
                          msgs: set<Msg>, ids: set<ModuleId>)
    requires candidate in ids && (n.role != Follower ==> n.votedFor == n.id != INVALID_MODULE_ID)
    ensures var (v, out) := OnVoteRequest(n, candidate, term, now, draw, gate); Reaction(n, v, out, msgs, ids)
  {}

  lemma VoteResponseReacts(n: Node, voter: ModuleId, term: nat, granted: bool, now: TimeUs, msgs: set<Msg>, ids: set<ModuleId>)
    requires VoteResponse(term, voter, granted, n.id) in msgs
    ensures var (v, out) := OnVoteResponse(n, voter, term, granted, now); Reaction(n, v, out, msgs, ids)
  {
    var (v, out) := OnVoteResponse(n, voter, term, granted, now);
    if v.granted != n.granted {
      assert voter !in n.granted && VoteResponse(n.term, voter, true, n.id) in msgs;
    }
  }

  lemma ReactionHolds(c: Cluster, ids: set<ModuleId>, i: ModuleId, ev: Event)
    requires Inv(c, ids) && Enabled(c, i, ev)
    ensures Reaction(c.nodes[i], React(c.nodes[i], ev).0, React(c.nodes[i], ev).1, c.msgs, ids)
  {
    assert NodeInv(c, ids, i);
    var n := c.nodes[i];
    match ev
    case Ticks(now, draw, gate) => TickReacts(n, now, draw, gate, c.msgs, ids);
    case StepsDown(now, draw) =>
    case Receives(RequestVote(t, cand), now, draw, gate) =>
      assert MsgInv(c, ids, ev.msg);
      VoteRequestReacts(n, cand, t, now, draw, gate, c.msgs, ids);
    case Receives(Heartbeat(t, l), now, draw, gate) => HeartbeatReacts(n, l, t, now, draw, c.msgs, ids);
    case Receives(VoteResponse(t, v, g, to), now, draw, gate) => VoteResponseReacts(n, v, t, g, now, c.msgs, ids);
  }

  lemma ReactionKeepsNode(c: Cluster, ids: set<ModuleId>, i: ModuleId, n': Node, out: set<Msg>)
    requires Inv(c, ids) && i in ids && Reaction(c.nodes[i], n', out, c.msgs, ids)
    ensures NodeInv(Cluster(c.nodes[i := n'], c.msgs + out), ids, i)
  {
    assert NodeInv(c, ids, i);
    var n := c.nodes[i];
    if n'.role != Follower && n'.term == n.term && n'.granted != n.granted {
      var u :| u !in n.granted && n'.granted == n.granted + {u} && VoteResponse(n.term, u, true, n.id) in c.msgs;
      assert MsgInv(c, ids, VoteResponse(n.term, u, true, n.id));
    }
  }

  lemma ReactionKeepsMsg(c: Cluster, ids: set<ModuleId>, i: ModuleId, n': Node, out: set<Msg>, m: Msg)
    requires Inv(c, ids) && i in ids && Reaction(c.nodes[i], n', out, c.msgs, ids)
    requires m in c.msgs + out
    ensures MsgInv(Cluster(c.nodes[i := n'], c.msgs + out), ids, m)
  {
    assert NodeInv(c, ids, i);
    if m in c.msgs {
      assert MsgInv(c, ids, m);
    }
  }

  lemma StepKeepsInv(c: Cluster, ids: set<ModuleId>, i: ModuleId, ev: Event)
    requires Inv(c, ids) && Enabled(c, i, ev)
    ensures Inv(Step(c, i, ev), ids)
  {
    ReactionHolds(c, ids, i, ev);
    var (n', out) := React(c.nodes[i], ev);
    var c' := Step(c, i, ev);
    forall j | j in ids ensures NodeInv(c', ids, j) {
      assert NodeInv(c, ids, j);
      if j == i { ReactionKeepsNode(c, ids, i, n', out); }
    }
    forall m | m in c'.msgs ensures MsgInv(c', ids, m) {
      ReactionKeepsMsg(c, ids, i, n', out, m);
    }
    forall m, m' | m in c'.msgs && m' in c'.msgs && SameVoterAndTerm(m, m') ensures m.to == m'.to {
      OneForeignVotePerTerm(c, ids, i, n', out, m, m');
    }
  }

  lemma OneForeignVotePerTerm(c: Cluster, ids: set<ModuleId>, i: ModuleId, n': Node, out: set<Msg>, m: Msg, m': Msg)
    requires Inv(c, ids) && i in ids && Reaction(c.nodes[i], n', out, c.msgs, ids)
    requires m in c.msgs + out && m' in c.msgs + out && SameVoterAndTerm(m, m')
    ensures m.to == m'.to
  {
    assert NodeInv(c, ids, i);
    if m in c.msgs { assert MsgInv(c, ids, m); }
    if m' in c.msgs { assert MsgInv(c, ids, m'); }
  }

  // ------------------------------------------------------------------ safety

  /** Two majorities of the same modules share a module. */
  lemma QuorumsMeet(a: set<ModuleId>, b: set<ModuleId>, ids: set<ModuleId>) returns (u: ModuleId)
    requires a <= ids && b <= ids && |a| >= |ids| / 2 + 1 && |b| >= |ids| / 2 + 1
    ensures u in a && u in b
  {
    SubsetSize(a + b, ids);
    assert |a + b| == |a| + |b| - |a * b|;
    u :| u in a * b;
  }

  /** Election safety at one instant. */
  lemma AtMostOneLeader(c: Cluster, ids: set<ModuleId>, i: ModuleId, j: ModuleId, term: nat)
    requires Inv(c, ids) && LeaderOf(c, i, term) && LeaderOf(c, j, term)
    ensures i == j
  {
    assert NodeInv(c, ids, i) && NodeInv(c, ids, j);
    var u := QuorumsMeet(c.nodes[i].granted, c.nodes[j].granted, ids);
    if i != j {
      if u != i {
        var vote := VoteResponse(term, u, true, i);
        assert vote in c.msgs && MsgInv(c, ids, vote);
      }
      if u != j {
        var vote := VoteResponse(term, u, true, j);
        assert vote in c.msgs && MsgInv(c, ids, vote);
      }
      assert u != i && u != j;
      assert SameVoterAndTerm(VoteResponse(term, u, true, i), VoteResponse(term, u, true, j));
      assert false;
    }
  }

  ghost predicate IsRun(run: seq<Cluster>, who: seq<ModuleId>, evs: seq<Event>, ids: set<ModuleId>) {
    && INVALID_MODULE_ID !in ids
    && |run| == |evs| + 1 == |who| + 1
    && run[0] == InitCluster(ids)
    && forall k :: 0 <= k < |evs| ==> Enabled(run[k], who[k], evs[k]) && run[k + 1] == Step(run[k], who[k], evs[k])
  }

  lemma {:induction false} RunKeepsInv(run: seq<Cluster>, who: seq<ModuleId>, evs: seq<Event>, ids: set<ModuleId>, k: nat)
    requires IsRun(run, who, evs, ids) && k < |run|
    ensures Inv(run[k], ids)
  {
    if k > 0 {
      RunKeepsInv(run, who, evs, ids, k - 1);
      StepKeepsInv(run[k - 1], ids, who[k - 1], evs[k - 1]);
    }
  }

  /** In every reachable state of every cluster, no two nodes lead one term. */
  lemma ElectionSafety(run: seq<Cluster>, who: seq<ModuleId>, evs: seq<Event>, ids: set<ModuleId>)
    requires IsRun(run, who, evs, ids)
    ensures forall k, i, j, term :: 0 <= k < |run| && LeaderOf(run[k], i, term) && LeaderOf(run[k], j, term) ==> i == j
  {
    forall k, i, j, term | 0 <= k < |run| && LeaderOf(run[k], i, term) && LeaderOf(run[k], j, term)
      ensures i == j
    {
      RunKeepsInv(run, who, evs, ids, k);
      AtMostOneLeader(run[k], ids, i, j, term);
    }
  }
}
