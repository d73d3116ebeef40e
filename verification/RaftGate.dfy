/**
 What each handler of a node does, case by case, and what the partition gate keeps
 out: a module cut off from its quorum neither stands nor votes, in any run.
 */
module RaftGate {
  import opened Types
  import opened Raft
  import Partition

  /** No partition context, or one in a state that allows voting. */
  predicate OpenToVote(gate: Gate) {
    gate.None? || gate.value == Partition.Healthy || gate.value == Partition.Majority || gate.value == Partition.Suspecting
  }

  /** No partition context, or one in a state that allows leading. */
  predicate OpenToStand(gate: Gate) {
    gate.None? || gate.value == Partition.Healthy || gate.value == Partition.Majority
  }

  /** The timer starts anew: between 150 and 300 ms from now. */
  predicate Restarted(n: Node, now: TimeUs) {
    n.lastHeartbeat == now && 150000 <= n.electionTimeout < 300000
  }

  predicate SameTimer(n: Node, n': Node) {
    n'.lastHeartbeat == n.lastHeartbeat && n'.electionTimeout == n.electionTimeout
  }

  /** Who the node is, and its running count of votes. */
  predicate SameCount(n: Node, n': Node) {
    n'.id == n.id && n'.votesNeeded == n.votesNeeded && n'.votesReceived == n.votesReceived && n'.granted == n.granted
    && n'.electionStart == n.electionStart
  }

  /** A fresh node follows nobody in term 0, has not voted, and has its timer still to be
      set, which is all the first tick does. */
  lemma FreshNode(id: ModuleId, total: nat, now: TimeUs, draw: Draw, gate: Gate)
    ensures var n := Init(id, total);
            && n.id == id && n.term == 0 && n.role == Follower && n.votedFor == n.leader == INVALID_MODULE_ID
            && n.votesNeeded == total / 2 + 1 && n.votesReceived == 0 && n.granted == {}
            && n.electionTimeout == n.lastHeartbeat == n.electionStart == 0
    ensures var (m, out) := Tick(Init(id, total), now, draw, gate);
            out == {} && Restarted(m, now) && m == Init(id, total).(electionTimeout := m.electionTimeout, lastHeartbeat := now)
  {}

  // ---------------------------------------------------------- vote requests

  /** A vote is granted exactly in a term at least as new as the node's, where it has
      not yet voted for somebody else, and while its partition lets it vote. */
  ghost predicate Grants(n: Node, candidate: ModuleId, term: nat, gate: Gate) {
    && term >= n.term && OpenToVote(gate)
    && (term > n.term || n.votedFor == INVALID_MODULE_ID || n.votedFor == candidate)
  }

  lemma VoteRequestOutcome(n: Node, candidate: ModuleId, term: nat, now: TimeUs, draw: Draw, gate: Gate)
    ensures var (v, out) := OnVoteRequest(n, candidate, term, now, draw, gate);
            var granted, newer := Grants(n, candidate, term, gate), term > n.term;
            && out == {VoteResponse(Max(term, n.term), n.id, granted, candidate)}
            && v.term == Max(term, n.term) && v.leader == n.leader && SameCount(n, v)
            && v.role == (if newer then Follower else n.role)
            && v.votedFor == (if granted then candidate else if newer then INVALID_MODULE_ID else n.votedFor)
            && (if granted || newer then Restarted(v, now) else SameTimer(n, v))
  {}

  // --------------------------------------------------------------- heartbeats

  /** A heartbeat of an older term changes nothing; any other makes the node a follower
      of its sender, whose timer starts anew, and clears its vote unless it was already
      a follower in that term. */
  lemma HeartbeatOutcome(n: Node, leader: ModuleId, term: nat, now: TimeUs, draw: Draw)
    ensures var m := OnHeartbeat(n, leader, term, now, draw);
            if term < n.term then m == n
            else && m.role == Follower && m.term == term && m.leader == leader && Restarted(m, now) && SameCount(n, m)
                 && m.votedFor == if term == n.term && n.role == Follower then n.votedFor else INVALID_MODULE_ID
  {}

  // ----------------------------------------------------------- vote responses

  /** A vote counts exactly if it is granted to a candidate in its term by a module not
      yet counted; the vote that completes the majority makes the leader, who says so
      at once. */
  lemma VoteResponseOutcome(n: Node, voter: ModuleId, term: nat, granted: bool, now: TimeUs)
    ensures var (m, out) := OnVoteResponse(n, voter, term, granted, now);
            var counts := n.role == Candidate && term == n.term && granted && voter !in n.granted;
            var wins := counts && n.votesReceived + 1 >= n.votesNeeded;
            && m.granted == (if counts then n.granted + {voter} else n.granted)
            && m.votesReceived == (if counts then n.votesReceived + 1 else n.votesReceived)
            && m.role == (if wins then Leader else n.role) && m.leader == (if wins then n.id else n.leader)
            && m.lastHeartbeat == (if wins then now else n.lastHeartbeat) && m.electionTimeout == n.electionTimeout
            && m.id == n.id && m.term == n.term && m.votedFor == n.votedFor && m.votesNeeded == n.votesNeeded
            && m.electionStart == n.electionStart
            && out == if wins then {Heartbeat(n.term, n.id)} else {}
  {}

  // -------------------------------------------------------------------- ticks

  /** The timer has run out on a follower, or on a candidate short of a majority. */
  predicate TimedOut(n: Node, now: TimeUs) {
    && n.lastHeartbeat != 0 && Elapsed(now, n.lastHeartbeat) >= n.electionTimeout
    && (n.role == Follower || (n.role == Candidate && n.votesReceived < n.votesNeeded))
  }

  /** A candidate gives up: cut off when its timer runs out, or 400 ms into the election. */
  predicate GivesUp(n: Node, now: TimeUs, gate: Gate) {
    && n.role == Candidate && n.lastHeartbeat != 0 && n.votesReceived < n.votesNeeded
    && (if TimedOut(n, now) then !OpenToStand(gate) else Elapsed(now, n.electionStart) >= 400000)
  }

  predicate Wins(n: Node) {
    n.role == Candidate && n.lastHeartbeat != 0 && n.votesReceived >= n.votesNeeded
  }

  /** A leader sends a heartbeat 50 ms after the last one. */
  predicate BeatIsDue(n: Node, now: TimeUs) {
    n.role == Leader && n.lastHeartbeat != 0 && Elapsed(now, n.lastHeartbeat) >= 50000
  }

  /** A request goes out exactly when the timer has run out and the partition allows
      leading, for the next term; a heartbeat exactly from a leader due for one or a
      candidate that has its majority; and nothing else is sent. */
  lemma TickSends(n: Node, now: TimeUs, draw: Draw, gate: Gate, m: Msg)
    ensures m in Tick(n, now, draw, gate).1 <==>
            || (m == RequestVote(n.term + 1, n.id) && TimedOut(n, now) && OpenToStand(gate))
            || (m == Heartbeat(n.term, n.id) && (BeatIsDue(n, now) || Wins(n)))
  {}

  /** What becomes of the node: a candidate in the next term with its own vote alone, a
      follower again, a leader, or what it was. */
  lemma TickOutcome(n: Node, now: TimeUs, draw: Draw, gate: Gate)
    ensures var m := Tick(n, now, draw, gate).0;
            var stands := TimedOut(n, now) && OpenToStand(gate);
            var stepsDown := GivesUp(n, now, gate) || (n.role == Leader && n.lastHeartbeat != 0 && !OpenToStand(gate));
            && m.id == n.id && m.votesNeeded == n.votesNeeded
            && m.term == (if stands then n.term + 1 else n.term)
            && m.role == (if stands then Candidate else if stepsDown then Follower else if Wins(n) then Leader else n.role)
            && m.votedFor == (if stands then n.id else if stepsDown then INVALID_MODULE_ID else n.votedFor)
            && m.leader == (if Wins(n) then n.id else n.leader)
            && (if stands then m.granted == {n.id} && m.votesReceived == 1 && m.electionStart == now else SameCount(n, m))
            && (if stands || stepsDown || n.lastHeartbeat == 0 || (n.role == Follower && TimedOut(n, now)) then Restarted(m, now)
                else && m.electionTimeout == n.electionTimeout
                     && m.lastHeartbeat == if Wins(n) || BeatIsDue(n, now) then now else n.lastHeartbeat)
  {}

  /** Stepping down keeps the term and frees the vote, and is for leaders only. */
  lemma StepDownOutcome(n: Node, now: TimeUs, draw: Draw)
    ensures var m := StepDown(n, now, draw);
            if n.role != Leader then m == n
            else m.role == Follower && m.term == n.term && m.votedFor == INVALID_MODULE_ID && m.leader == n.leader
                 && Restarted(m, now) && SameCount(n, m)
  {}

  // --------------------------------------------------------------- over runs

  /** The gate a module sees at an event, where the handler looks at one. */
  function GateOf(ev: Event): Gate {
    if ev.StepsDown? then None else ev.gate
  }

  /** Module i of the cluster sends m at step k of the run. */
  ghost predicate SentAt(run: seq<Cluster>, who: seq<ModuleId>, evs: seq<Event>, k: nat, i: ModuleId, m: Msg) {
    k < |evs| && k < |who| && k < |run| && who[k] == i && i in run[k].nodes && m in React(run[k].nodes[i], evs[k]).1
  }

  /** Every message in the network was sent at some step before. */
  lemma {:induction false} EveryMessageWasSent(run: seq<Cluster>, who: seq<ModuleId>, evs: seq<Event>, ids: set<ModuleId>, k: nat, m: Msg)
    returns (j: nat)
    requires IsRun(run, who, evs, ids) && k < |run| && m in run[k].msgs
    ensures j < k && SentAt(run, who, evs, j, who[j], m)
  {
    assert run[k] == Step(run[k - 1], who[k - 1], evs[k - 1]);
    if m in run[k - 1].msgs {
      j := EveryMessageWasSent(run, who, evs, ids, k - 1, m);
    } else {
      j := k - 1;
    }
  }

  /** What a node sends names the node, and was let through by its gate. */
  lemma SentThroughGate(n: Node, ev: Event, m: Msg)
    requires m in React(n, ev).1
    ensures m.RequestVote? ==> m.candidate == n.id && OpenToStand(GateOf(ev))
    ensures m.VoteResponse? && m.granted ==> m.voter == n.id && OpenToVote(GateOf(ev))
  {
    match ev
    case Ticks(now, draw, gate) => TickSends(n, now, draw, gate, m);
    case Receives(RequestVote(t, c), now, draw, gate) => VoteRequestOutcome(n, c, t, now, draw, gate);
    case Receives(VoteResponse(t, v, g, _), now, draw, gate) => VoteResponseOutcome(n, v, t, g, now);
    case _ =>
  }

  /** In MINORITY or RECONCILING a module sends no request and no granted vote. */
  lemma CutOffIsSilent(run: seq<Cluster>, who: seq<ModuleId>, evs: seq<Event>, ids: set<ModuleId>, k: nat, m: Msg)
    requires IsRun(run, who, evs, ids) && k < |evs|
    requires GateOf(evs[k]) == Some(Partition.Minority) || GateOf(evs[k]) == Some(Partition.Reconciling)
    ensures m in run[k + 1].msgs && m !in run[k].msgs ==> !m.RequestVote? && !(m.VoteResponse? && m.granted)
  {
    assert run[k + 1] == Step(run[k], who[k], evs[k]);
    if m in run[k + 1].msgs && m !in run[k].msgs {
      SentThroughGate(run[k].nodes[who[k]], evs[k], m);
    }
  }

  /** Whoever is no follower asked for votes in its term. */
  lemma {:induction false} StandersAsked(run: seq<Cluster>, who: seq<ModuleId>, evs: seq<Event>, ids: set<ModuleId>, k: nat, i: ModuleId)
    requires IsRun(run, who, evs, ids) && k < |run| && i in ids
    ensures i in run[k].nodes
    ensures run[k].nodes[i].role != Follower ==> RequestVote(run[k].nodes[i].term, i) in run[k].msgs
  {
    RunKeepsInv(run, who, evs, ids, k);
    if k > 0 {
      StandersAsked(run, who, evs, ids, k - 1, i);
      RunKeepsInv(run, who, evs, ids, k - 1);
      assert NodeInv(run[k - 1], ids, i) && run[k] == Step(run[k - 1], who[k - 1], evs[k - 1]);
      if who[k - 1] == i { ReactionHolds(run[k - 1], ids, i, evs[k - 1]); }
    }
  }

  /** Module u took part in the election of i at a step at which its gate was open: i by
      standing, any other by voting. */
  ghost predicate TookPart(run: seq<Cluster>, who: seq<ModuleId>, evs: seq<Event>, k: nat, i: ModuleId, term: nat, u: ModuleId) {
    if u == i then exists j :: 0 <= j < k && SentAt(run, who, evs, j, i, RequestVote(term, i)) && OpenToStand(GateOf(evs[j]))
    else exists j :: 0 <= j < k && SentAt(run, who, evs, j, u, VoteResponse(term, u, true, i)) && OpenToVote(GateOf(evs[j]))
  }

  /** A leader, in any state of any run, was elected by a majority of the modules, none
      of them cut off when it stood or voted. */
  lemma ElectedByTheQuorate(run: seq<Cluster>, who: seq<ModuleId>, evs: seq<Event>, ids: set<ModuleId>, k: nat, i: ModuleId, term: nat)
    requires IsRun(run, who, evs, ids) && k < |run| && LeaderOf(run[k], i, term)
    ensures var voters := run[k].nodes[i].granted;
            && voters <= ids && |voters| >= |ids| / 2 + 1
            && forall u :: u in voters ==> TookPart(run, who, evs, k, i, term, u)
  {
    RunKeepsInv(run, who, evs, ids, k);
    assert NodeInv(run[k], ids, i);
    StandersAsked(run, who, evs, ids, k, i);
    forall u | u in run[k].nodes[i].granted ensures TookPart(run, who, evs, k, i, term, u) {
      var m := if u == i then RequestVote(term, i) else VoteResponse(term, u, true, i);
      var j := EveryMessageWasSent(run, who, evs, ids, k, m);
      SenderOf(run, who, evs, ids, j, u, m);
    }
  }

  lemma SenderOf(run: seq<Cluster>, who: seq<ModuleId>, evs: seq<Event>, ids: set<ModuleId>, j: nat, u: ModuleId, m: Msg)
    requires IsRun(run, who, evs, ids) && j < |evs| && SentAt(run, who, evs, j, who[j], m)
    requires (m.RequestVote? && m.candidate == u) || (m.VoteResponse? && m.granted && m.voter == u)
    ensures who[j] == u && (if m.RequestVote? then OpenToStand(GateOf(evs[j])) else OpenToVote(GateOf(evs[j])))
  {
    RunKeepsInv(run, who, evs, ids, j);
    assert NodeInv(run[j], ids, who[j]);
    SentThroughGate(run[j].nodes[who[j]], evs[j], m);
  }

  /** A leader cut off is no leader after its next tick. */
  lemma CutOffLeaderStepsDown(n: Node, now: TimeUs, draw: Draw, gate: Gate)
    requires n.role == Leader && n.lastHeartbeat != 0 && !OpenToStand(gate)
    ensures Tick(n, now, draw, gate).0.role == Follower && Tick(n, now, draw, gate).0.term == n.term
  {
    TickOutcome(n, now, draw, gate);
  }
}
