/**
 The Raft context updated in place. Every handler is proved to move its node
 exactly as the value function of module `Raft` that the cluster theorems are
 about; messages it sends are returned.
 */
module RaftNode {
  import opened Types
  import opened Raft

  const MAX_MODULES: nat := 256

  class RaftCtx {
    const myId: ModuleId
    const votesNeeded: nat
    const voteGranted: array<bool>
    var currentTerm: nat
    var votedFor: ModuleId
    var state: Role
    var currentLeader: ModuleId
    var electionTimeout: TimeUs
    var lastHeartbeat: TimeUs
    var electionStart: TimeUs
    var votesReceived: nat

    ghost function Granted(): set<ModuleId>
      reads voteGranted
      requires voteGranted.Length == MAX_MODULES
    {
      set i: ModuleId | i < MAX_MODULES && voteGranted[i]
    }

    ghost function View(): Node
      reads this, voteGranted
      requires voteGranted.Length == MAX_MODULES
    {
      Node(myId, currentTerm, votedFor, state, currentLeader, electionTimeout, lastHeartbeat, electionStart,
           votesReceived, votesNeeded, Granted())
    }

    constructor (id: ModuleId, totalModules: nat)
      requires id != INVALID_MODULE_ID && totalModules > 0
      ensures voteGranted.Length == MAX_MODULES && fresh(voteGranted)
      ensures View() == Init(id, totalModules)
    {
      myId, votesNeeded := id, totalModules / 2 + 1;
      currentTerm, votedFor, state, currentLeader := 0, INVALID_MODULE_ID, Follower, INVALID_MODULE_ID;
      electionTimeout, lastHeartbeat, electionStart, votesReceived := 0, 0, 0, 0;
      voteGranted := new bool[MAX_MODULES](_ => false);
    }

    method ResetElectionTimer(now: TimeUs, draw: Draw)
      requires voteGranted.Length == MAX_MODULES
      modifies this`electionTimeout, this`lastHeartbeat
      ensures View() == ResetTimer(old(View()), now, draw)
    {
      electionTimeout := ELECTION_TIMEOUT_MIN_US + draw;
      lastHeartbeat := now;
    }

    method DoBecomeFollower(term: nat, now: TimeUs, draw: Draw)
      requires voteGranted.Length == MAX_MODULES
      modifies this
      ensures View() == BecomeFollower(old(View()), term, now, draw)
    {
      state, currentTerm, votedFor := Follower, term, INVALID_MODULE_ID;
      ResetElectionTimer(now, draw);
    }

    method DoBecomeCandidate(now: TimeUs, draw: Draw) returns (sent: set<Msg>)
      requires voteGranted.Length == MAX_MODULES
      modifies this, voteGranted
      ensures (View(), sent) == BecomeCandidate(old(View()), now, draw)
    {
      state, currentTerm, votedFor, electionStart := Candidate, currentTerm + 1, myId, now;
      votesReceived := 1;
      for i := 0 to MAX_MODULES
        modifies voteGranted
        invariant forall k :: 0 <= k < i ==> !voteGranted[k]
      {
        voteGranted[i] := false;
      }
      voteGranted[myId] := true;
      assert Granted() == {myId};
      ResetElectionTimer(now, draw);
      sent := {RequestVote(currentTerm, myId)};
    }

    method DoBecomeLeader(now: TimeUs) returns (sent: set<Msg>)
      requires voteGranted.Length == MAX_MODULES
      modifies this
      ensures (View(), sent) == BecomeLeader(old(View()), now)
    {
      state, currentLeader, lastHeartbeat := Leader, myId, now;
      sent := {Heartbeat(currentTerm, myId)};
    }

    method DoStepDown(now: TimeUs, draw: Draw)
      requires voteGranted.Length == MAX_MODULES
      modifies this
      ensures View() == StepDown(old(View()), now, draw)
    {
      if state == Leader { DoBecomeFollower(currentTerm, now, draw); }
    }

    method DoTick(now: TimeUs, draw: Draw, gate: Gate) returns (sent: set<Msg>)
      requires voteGranted.Length == MAX_MODULES
      modifies this, voteGranted
      ensures (View(), sent) == Tick(old(View()), now, draw, gate)
    {
      sent := {};
      if lastHeartbeat == 0 {
        ResetElectionTimer(now, draw);
        return;
      }
      var elapsed := Elapsed(now, lastHeartbeat);
      match state {
        case Follower =>
          if elapsed >= electionTimeout {
            if MayElect(gate) { sent := DoBecomeCandidate(now, draw); } else { ResetElectionTimer(now, draw); }
          }
        case Candidate =>
          if votesReceived >= votesNeeded {
            sent := DoBecomeLeader(now);
          } else if elapsed >= electionTimeout {
            if MayElect(gate) { sent := DoBecomeCandidate(now, draw); } else { DoBecomeFollower(currentTerm, now, draw); }
          } else if Elapsed(now, electionStart) >= ELECTION_MAX_US {
            DoBecomeFollower(currentTerm, now, draw);
          }
        case Leader =>
          if elapsed >= HEARTBEAT_INTERVAL_US {
            sent := {Heartbeat(currentTerm, myId)};
            lastHeartbeat := now;
          }
          if !MayElect(gate) { DoStepDown(now, draw); }
      }
    }

    method DoOnHeartbeat(leader: ModuleId, term: nat, now: TimeUs, draw: Draw)
      requires voteGranted.Length == MAX_MODULES
      modifies this
      ensures View() == OnHeartbeat(old(View()), leader, term, now, draw)
    {
      if term > currentTerm { DoBecomeFollower(term, now, draw); }
      if term >= currentTerm {
        currentLeader := leader;
        if state != Follower { DoBecomeFollower(term, now, draw); } else { ResetElectionTimer(now, draw); }
      }
    }

    method DoOnVoteRequest(candidate: ModuleId, term: nat, now: TimeUs, draw: Draw, gate: Gate)
      returns (granted: bool, sent: set<Msg>)
      requires voteGranted.Length == MAX_MODULES
      modifies this
      ensures (View(), sent) == OnVoteRequest(old(View()), candidate, term, now, draw, gate)
      ensures sent == {VoteResponse(currentTerm, myId, granted, candidate)}
    {
      granted := false;
      if term > currentTerm { DoBecomeFollower(term, now, draw); }
      if term == currentTerm {
        var canVote := votedFor == INVALID_MODULE_ID || votedFor == candidate;
        if !MayVote(gate) { canVote := false; }
        if canVote {
          votedFor, granted := candidate, true;
          ResetElectionTimer(now, draw);
        }
      }
      sent := {VoteResponse(currentTerm, myId, granted, candidate)};
    }

    method DoOnVoteResponse(voter: ModuleId, term: nat, granted: bool, now: TimeUs) returns (sent: set<Msg>)
      requires voteGranted.Length == MAX_MODULES
      modifies this, voteGranted
      ensures (View(), sent) == OnVoteResponse(old(View()), voter, term, granted, now)
    {
      sent := {};
      if state != Candidate || term != currentTerm { return; }
      if granted && !voteGranted[voter] {
        voteGranted[voter] := true;
        votesReceived := votesReceived + 1;
        assert Granted() == old(Granted()) + {voter};
        if votesReceived >= votesNeeded { sent := DoBecomeLeader(now); }
      }
    }
  }
}
