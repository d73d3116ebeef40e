/**
 Leaders of one term over a whole run. Stepping down clears the vote even inside a
 term, so a module that led a term can afterwards vote in it for another. Whether
 that can give the term a second leader depends on the number of modules alone.
 */
module RaftTerms {
  import opened Types
  import opened Raft

  function TimeOf(ev: Event): TimeUs {
    ev.now
  }

  /** No module's clock goes back. */
  ghost predicate ClocksRun(who: seq<ModuleId>, evs: seq<Event>)
    requires |who| == |evs|
  {
    forall k, m :: 0 <= k < m < |evs| && who[k] == who[m] ==> TimeOf(evs[k]) <= TimeOf(evs[m])
  }

  /** All modules may even share one clock. */
  ghost predicate OneClock(evs: seq<Event>) {
    forall k, m :: 0 <= k < m < |evs| ==> TimeOf(evs[k]) <= TimeOf(evs[m])
  }

  ghost predicate OneLeaderPerTerm(ids: set<ModuleId>) {
    forall run, who, evs, a, b, i, j, term ::
      (IsRun(run, who, evs, ids) && ClocksRun(who, evs) && 0 <= a <= b < |run|
       && LeaderOf(run[a], i, term) && LeaderOf(run[b], j, term)) ==> i == j
  }

  /** Every run on clocks that do not go back has one leader per term ever, exactly when the modules are even in
      number or only one: two majorities of an odd number may share the first leader
      alone, and it can vote twice. */
  lemma OneLeaderIff(ids: set<ModuleId>)
    requires INVALID_MODULE_ID !in ids
    ensures OneLeaderPerTerm(ids) <==> |ids| % 2 == 0 || |ids| == 1
  {
    if |ids| % 2 == 0 || |ids| == 1 {
      forall run, who, evs, a, b, i, j, term
        | IsRun(run, who, evs, ids) && ClocksRun(who, evs) && 0 <= a <= b < |run|
          && LeaderOf(run[a], i, term) && LeaderOf(run[b], j, term)
        ensures i == j
      {
        OneLeaderOfEven(run, who, evs, ids, a, b, i, j, term);
      }
    } else {
      var t, i, j, a, b := TwoLeadersInOneTerm(ids);
      assert LeaderOf(t.run[a], i, 1) && LeaderOf(t.run[b], j, 1) && IsRun(t.run, t.who, t.evs, ids) && ClocksRun(t.who, t.evs);
    }
  }

  // ----------------------------------------------------------- an even number

  lemma {:induction false} MessagesPersist(run: seq<Cluster>, who: seq<ModuleId>, evs: seq<Event>, ids: set<ModuleId>, a: nat, b: nat)
    requires IsRun(run, who, evs, ids) && a <= b < |run|
    ensures run[a].msgs <= run[b].msgs
    decreases b - a
  {
    if a < b {
      MessagesPersist(run, who, evs, ids, a, b - 1);
      assert run[b] == Step(run[b - 1], who[b - 1], evs[b - 1]);
    }
  }

  /** Two leaders of a term, one after the other, were elected by sets of modules that
      share at most the first of them. */
  lemma OnlyTheFirstVotesTwice(run: seq<Cluster>, who: seq<ModuleId>, evs: seq<Event>, ids: set<ModuleId>,
                               a: nat, b: nat, i: ModuleId, j: ModuleId, term: nat, u: ModuleId)
    requires IsRun(run, who, evs, ids) && a <= b < |run| && i != j
    requires LeaderOf(run[a], i, term) && LeaderOf(run[b], j, term)
    requires u in run[a].nodes[i].granted && u in run[b].nodes[j].granted
    ensures u == i
  {
    RunKeepsInv(run, who, evs, ids, a);
    RunKeepsInv(run, who, evs, ids, b);
    MessagesPersist(run, who, evs, ids, a, b);
    assert NodeInv(run[a], ids, i) && NodeInv(run[b], ids, j);
    var first, second := VoteResponse(term, u, true, i), VoteResponse(term, u, true, j);
    if u != i {
      assert first in run[b].msgs && MsgInv(run[b], ids, first) && ForeignVote(first);
      if u != j { assert second in run[b].msgs && SameVoterAndTerm(first, second); }
    }
  }

  lemma OneLeaderOfEven(run: seq<Cluster>, who: seq<ModuleId>, evs: seq<Event>, ids: set<ModuleId>,
                        a: nat, b: nat, i: ModuleId, j: ModuleId, term: nat)
    requires IsRun(run, who, evs, ids) && (|ids| % 2 == 0 || |ids| == 1)
    requires a <= b < |run| && LeaderOf(run[a], i, term) && LeaderOf(run[b], j, term)
    ensures i == j
  {
    RunKeepsInv(run, who, evs, ids, a);
    RunKeepsInv(run, who, evs, ids, b);
    assert NodeInv(run[a], ids, i) && NodeInv(run[b], ids, j);
    if i != j {
      var first, second := run[a].nodes[i].granted, run[b].nodes[j].granted;
      forall u | u in first && u in second ensures u == i {
        OnlyTheFirstVotesTwice(run, who, evs, ids, a, b, i, j, term, u);
      }
      SharingOne(first, second, ids, i);
      SubsetSize({i, j}, ids);
    }
  }

  lemma SharingOne(a: set<ModuleId>, b: set<ModuleId>, ids: set<ModuleId>, i: ModuleId)
    requires a <= ids && b <= ids && forall u :: u in a && u in b ==> u == i
    ensures |a| + |b| <= |ids| + 1
  {
    SubsetSize(a * b, {i});
    SubsetSize(a + b, ids);
    assert |a + b| == |a| + |b| - |a * b|;
  }

  // ------------------------------------------------- no step-down inside a term

  /** A node gave up its candidacy or leadership without a new term. */
  predicate SteppedDownInTerm(c: Cluster, c': Cluster, i: ModuleId)
    requires i in c.nodes && i in c'.nodes
  {
    c.nodes[i].role != Follower && c'.nodes[i].role == Follower && c.nodes[i].term == c'.nodes[i].term
  }

  /** While nobody steps down inside a term, a candidacy excludes a foreign vote. */
  ghost predicate CandidacyInv(c: Cluster, ids: set<ModuleId>)
    requires c.nodes.Keys == ids
  {
    && (forall i :: i in ids && c.nodes[i].role != Follower ==> RequestVote(c.nodes[i].term, i) in c.msgs)
    && (forall m :: m in c.msgs && m.RequestVote? && m.candidate in ids ==>
          && m.term <= c.nodes[m.candidate].term
          && (m.term == c.nodes[m.candidate].term ==> c.nodes[m.candidate].role != Follower))
    && (forall m :: m in c.msgs && ForeignVote(m) ==> RequestVote(m.term, m.voter) !in c.msgs)
  }

  lemma StepKeepsCandidacies(c: Cluster, ids: set<ModuleId>, i: ModuleId, ev: Event)
    requires Inv(c, ids) && CandidacyInv(c, ids) && Enabled(c, i, ev)
    requires !SteppedDownInTerm(c, Step(c, i, ev), i)
    ensures CandidacyInv(Step(c, i, ev), ids)
  {
    ReactionHolds(c, ids, i, ev);
    assert NodeInv(c, ids, i);
    var (n', out) := React(c.nodes[i], ev);
    var c' := Step(c, i, ev);
    forall m | m in c'.msgs && ForeignVote(m) ensures RequestVote(m.term, m.voter) !in c'.msgs {
      if m in c.msgs { assert MsgInv(c, ids, m); }
    }
    forall m | m in c'.msgs && m.RequestVote? && m.candidate in ids
      ensures m.term <= c'.nodes[m.candidate].term
      ensures m.term == c'.nodes[m.candidate].term ==> c'.nodes[m.candidate].role != Follower
    {
      if m in c.msgs { assert MsgInv(c, ids, m); }
    }
  }

  /** No step of the run is a step-down inside a term. */
  ghost predicate NoStepDownInTerm(run: seq<Cluster>, who: seq<ModuleId>, evs: seq<Event>, ids: set<ModuleId>)
    requires IsRun(run, who, evs, ids)
  {
    forall k :: 0 <= k < |who| ==> !SteppedDownInTerm(run[k], run[k + 1], who[k])
  }

  lemma {:induction false} RunKeepsCandidacies(run: seq<Cluster>, who: seq<ModuleId>, evs: seq<Event>, ids: set<ModuleId>, k: nat)
    requires IsRun(run, who, evs, ids) && NoStepDownInTerm(run, who, evs, ids) && k < |run|
    ensures Inv(run[k], ids) && CandidacyInv(run[k], ids)
  {
    RunKeepsInv(run, who, evs, ids, k);
    if k > 0 {
      RunKeepsCandidacies(run, who, evs, ids, k - 1);
      StepKeepsCandidacies(run[k - 1], ids, who[k - 1], evs[k - 1]);
    }
  }

  /** Without step-downs inside a term, a term has one leader for the whole run. */
  lemma OneLeaderEver(run: seq<Cluster>, who: seq<ModuleId>, evs: seq<Event>, ids: set<ModuleId>,
                      a: nat, b: nat, i: ModuleId, j: ModuleId, term: nat)
    requires IsRun(run, who, evs, ids) && NoStepDownInTerm(run, who, evs, ids)
    requires a <= b < |run| && LeaderOf(run[a], i, term) && LeaderOf(run[b], j, term)
    ensures i == j
  {
    RunKeepsCandidacies(run, who, evs, ids, a);
    RunKeepsCandidacies(run, who, evs, ids, b);
    MessagesPersist(run, who, evs, ids, a, b);
    assert NodeInv(run[a], ids, i) && NodeInv(run[b], ids, j);
    var u := QuorumsMeet(run[a].nodes[i].granted, run[b].nodes[j].granted, ids);
    assert RequestVote(term, i) in run[b].msgs && RequestVote(term, j) in run[b].msgs;
    var first, second := VoteResponse(term, u, true, i), VoteResponse(term, u, true, j);
    if i != j {
      assert u != i ==> first in run[b].msgs && ForeignVote(first);
      assert u != j ==> second in run[b].msgs && ForeignVote(second);
      assert u != i && u != j && SameVoterAndTerm(first, second);
    }
  }

  // ------------------------------------------------------------ an odd number

  datatype Trace = Trace(run: seq<Cluster>, who: seq<ModuleId>, evs: seq<Event>)

  /** A run that ends in `last`, on one clock that has come no further than `now`. */
  ghost predicate TraceOf(t: Trace, ids: set<ModuleId>, last: Cluster, now: TimeUs) {
    && IsRun(t.run, t.who, t.evs, ids) && t.run[|t.run| - 1] == last
    && OneClock(t.evs) && forall k :: 0 <= k < |t.evs| ==> TimeOf(t.evs[k]) <= now
  }

  /** When both candidates' timers have run out. */
  const LATE: TimeUs := 200000

  /** One more step, whose effect on the acting node is known. */
  lemma Extend(t: Trace, ids: set<ModuleId>, c: Cluster, now: TimeUs, i: ModuleId, ev: Event, n: Node, out: set<Msg>)
    returns (t': Trace, c': Cluster)
    requires TraceOf(t, ids, c, now) && Enabled(c, i, ev) && React(c.nodes[i], ev) == (n, out) && now <= TimeOf(ev)
    ensures c' == Cluster(c.nodes[i := n], c.msgs + out) && TraceOf(t', ids, c', TimeOf(ev))
    ensures |t'.run| == |t.run| + 1 && t.run == t'.run[..|t.run|]
  {
    c' := Step(c, i, ev);
    t' := Trace(t.run + [c'], t.who + [i], t.evs + [ev]);
    forall k | 0 <= k < |t'.evs|
      ensures Enabled(t'.run[k], t'.who[k], t'.evs[k]) && t'.run[k + 1] == Step(t'.run[k], t'.who[k], t'.evs[k])
    {
      if k < |t.evs| {
        assert t'.run[k] == t.run[k] && t'.run[k + 1] == t.run[k + 1];
      }
    }
  }

  /** A trace goes on from another. */
  ghost predicate Continues(t: Trace, t': Trace) {
    |t.run| <= |t'.run| && t.run == t'.run[..|t.run|]
  }

  lemma ContinuesOn(t: Trace, t1: Trace, t2: Trace)
    requires Continues(t, t1) && Continues(t1, t2)
    ensures Continues(t, t2)
  {
    assert t.run == t1.run[..|t.run|] == t2.run[..|t1.run|][..|t.run|];
  }

  /** A module that stands in term 1, with the votes it has so far. */
  function Standing(i: ModuleId, granted: set<ModuleId>, total: nat): Node {
    Node(i, 1, i, Candidate, 0, 150000, 200000, 200000, |granted|, total / 2 + 1, granted)
  }

  /** A module whose timer runs since time 1. */
  function Waiting(i: ModuleId, total: nat): Node {
    Init(i, total).(electionTimeout := 150000, lastHeartbeat := 1)
  }

  /** From a fresh node: the first tick sets the timer, ... */
  lemma Waits(t: Trace, ids: set<ModuleId>, c: Cluster, now: TimeUs, i: ModuleId) returns (t': Trace, c': Cluster)
    requires TraceOf(t, ids, c, now) && now <= 1 && i in c.nodes && c.nodes[i] == Init(i, |ids|)
    ensures c' == Cluster(c.nodes[i := Waiting(i, |ids|)], c.msgs) && TraceOf(t', ids, c', 1)
  {
    assert Tick(Init(i, |ids|), 1, 0, None) == (Waiting(i, |ids|), {});
    t', c' := Extend(t, ids, c, now, i, Ticks(1, 0, None), Waiting(i, |ids|), {});
  }

  /** ... and a late one starts an election. */
  lemma Stands(t: Trace, ids: set<ModuleId>, c: Cluster, now: TimeUs, i: ModuleId) returns (t': Trace, c': Cluster)
    requires TraceOf(t, ids, c, now) && now <= LATE && i in c.nodes && c.nodes[i] == Waiting(i, |ids|)
    ensures c' == Cluster(c.nodes[i := Standing(i, {i}, |ids|)], c.msgs + {RequestVote(1, i)}) && TraceOf(t', ids, c', LATE)
  {
    assert Tick(Waiting(i, |ids|), LATE, 0, None) == (Standing(i, {i}, |ids|), {RequestVote(1, i)});
    t', c' := Extend(t, ids, c, now, i, Ticks(LATE, 0, None), Standing(i, {i}, |ids|), {RequestVote(1, i)});
  }

  /** Free to vote in term 1. */
  predicate Free(c: Cluster, v: ModuleId) {
    v in c.nodes && c.nodes[v].id == v && c.nodes[v].term <= 1 && c.nodes[v].votedFor == INVALID_MODULE_ID
  }

  /** Nothing but i and the voters has changed, and no message is gone. */
  ghost predicate OthersKept(c: Cluster, c': Cluster, i: ModuleId, voters: set<ModuleId>) {
    && c'.nodes.Keys == c.nodes.Keys && c.msgs <= c'.msgs
    && forall k :: k in c.nodes && k != i && k !in voters ==> c'.nodes[k] == c.nodes[k]
  }

  /** One free module votes for i, and i hears of it. */
  lemma OneVote(t: Trace, ids: set<ModuleId>, c: Cluster, i: ModuleId, v: ModuleId) returns (t': Trace, c': Cluster)
    requires TraceOf(t, ids, c, LATE) && i in c.nodes && c.nodes[i].id == i && i != v && Free(c, v)
    requires RequestVote(1, i) in c.msgs
    ensures TraceOf(t', ids, c', LATE) && OthersKept(c, c', i, {v}) && Continues(t, t')
    ensures i in c'.nodes && c'.nodes[i] == OnVoteResponse(c.nodes[i], v, 1, true, LATE).0
  {
    var vote := VoteResponse(1, v, true, i);
    var t1, c1 := Extend(t, ids, c, LATE, v, Receives(RequestVote(1, i), LATE, 0, None),
                         OnVoteRequest(c.nodes[v], i, 1, LATE, 0, None).0, {vote});
    var heard := OnVoteResponse(c.nodes[i], v, 1, true, LATE);
    t', c' := Extend(t1, ids, c1, LATE, i, Receives(vote, LATE, 0, None), heard.0, heard.1);
    ContinuesOn(t, t1, t');
  }

  /** A standing module wins with the votes it is short of. */
  lemma {:induction false} Wins(t: Trace, ids: set<ModuleId>, c: Cluster, i: ModuleId, had: set<ModuleId>, voters: set<ModuleId>)
    returns (t': Trace, c': Cluster)
    requires TraceOf(t, ids, c, LATE) && i in c.nodes && c.nodes[i] == Standing(i, had, |ids|) && RequestVote(1, i) in c.msgs
    requires i in had && had !! voters && voters != {} && |had| + |voters| == |ids| / 2 + 1
    requires forall v :: v in voters ==> Free(c, v)
    ensures TraceOf(t', ids, c', LATE) && LeaderOf(c', i, 1) && c'.nodes[i].id == i
    ensures OthersKept(c, c', i, voters) && Continues(t, t')
    decreases |voters|
  {
    var v :| v in voters;
    var rest := voters - {v};
    var t1, c1 := OneVote(t, ids, c, i, v);
    if rest == {} {
      assert voters == {v};
      t', c' := t1, c1;
    } else {
      assert |had + {v}| == |had| + 1 && |rest| == |voters| - 1;
      assert c1.nodes[i] == Standing(i, had + {v}, |ids|);
      t', c' := Wins(t1, ids, c1, i, had + {v}, rest);
      ContinuesOn(t, t1, t');
    }
  }

  /** Two modules stand in term 1 while all others are fresh. */
  lemma BothStand(ids: set<ModuleId>, i: ModuleId, j: ModuleId) returns (t: Trace, c: Cluster)
    requires INVALID_MODULE_ID !in ids && i in ids && j in ids && i != j
    ensures TraceOf(t, ids, c, LATE) && c.nodes.Keys == ids && {RequestVote(1, i), RequestVote(1, j)} <= c.msgs
    ensures c.nodes[i] == Standing(i, {i}, |ids|) && c.nodes[j] == Standing(j, {j}, |ids|)
    ensures forall k :: k in ids && k != i && k != j ==> c.nodes[k] == Init(k, |ids|)
  {
    c := InitCluster(ids);
    t := Trace([c], [], []);
    t, c := Waits(t, ids, c, 0, i);
    t, c := Waits(t, ids, c, 1, j);
    t, c := Stands(t, ids, c, 1, i);
    t, c := Stands(t, ids, c, LATE, j);
  }

  /** Two candidates of an odd number of modules, with just enough voters for each:
      the first candidate is one of the voters of the second. */
  lemma Split(ids: set<ModuleId>) returns (i: ModuleId, j: ModuleId, first: set<ModuleId>, second: set<ModuleId>)
    requires |ids| % 2 == 1 && |ids| > 1
    ensures i in ids && j in ids && i != j && first + second <= ids && first !! second
    ensures i !in first && j !in first + second && i in second && |first| == |second| == |ids| / 2
  {
    i :| i in ids;
    var others := ids - {i};
    assert |others| == |ids| - 1;
    j :| j in others;
    var left := others - {j};
    assert |left| == |ids| - 2;
    first := Part(left, |ids| / 2);
    var rest := left - first;
    assert |rest| == |left| - |first|;
    second := rest + {i};
  }

  /** For every odd number of modules but one: i leads term 1 by half of the others,
      steps down keeping its term, and votes with the other half for j. */
  lemma TwoLeadersInOneTerm(ids: set<ModuleId>) returns (t: Trace, i: ModuleId, j: ModuleId, a: nat, b: nat)
    requires INVALID_MODULE_ID !in ids && |ids| % 2 == 1 && |ids| > 1
    ensures IsRun(t.run, t.who, t.evs, ids) && OneClock(t.evs) && i != j
    ensures a < b < |t.run| && LeaderOf(t.run[a], i, 1) && LeaderOf(t.run[b], j, 1)
  {
    var first, second;
    i, j, first, second := Split(ids);
    var t1, c1 := OneLeads(ids, i, j, first);
    var t3, c3 := ThenTheOther(t1, ids, c1, i, j, first, second);
    a, b, t := |t1.run| - 1, |t3.run| - 1, t3;
    assert t1.run[a] == t3.run[a];
  }

  lemma OneLeads(ids: set<ModuleId>, i: ModuleId, j: ModuleId, voters: set<ModuleId>) returns (t: Trace, c: Cluster)
    requires INVALID_MODULE_ID !in ids && {i, j} + voters <= ids && i != j && i !in voters && j !in voters
    requires voters != {} && |voters| == |ids| / 2
    ensures TraceOf(t, ids, c, LATE) && c.nodes.Keys == ids && LeaderOf(c, i, 1) && c.nodes[i].id == i
    ensures c.nodes[j] == Standing(j, {j}, |ids|) && RequestVote(1, j) in c.msgs
    ensures forall k :: k in ids && k != i && k != j && k !in voters ==> c.nodes[k] == Init(k, |ids|)
  {
    var t0, c0 := BothStand(ids, i, j);
    t, c := Wins(t0, ids, c0, i, {i}, voters);
  }

  lemma ThenTheOther(t: Trace, ids: set<ModuleId>, c: Cluster, i: ModuleId, j: ModuleId, first: set<ModuleId>, second: set<ModuleId>)
    returns (t': Trace, c': Cluster)
    requires TraceOf(t, ids, c, LATE) && c.nodes.Keys == ids && LeaderOf(c, i, 1) && c.nodes[i].id == i
    requires INVALID_MODULE_ID !in ids && second <= ids && first !! second && i in second && j in ids && j !in second
    requires |second| == |ids| / 2 && c.nodes[j] == Standing(j, {j}, |ids|) && RequestVote(1, j) in c.msgs
    requires forall k :: k in ids && k != i && k != j && k !in first ==> c.nodes[k] == Init(k, |ids|)
    ensures TraceOf(t', ids, c', LATE) && LeaderOf(c', j, 1) && Continues(t, t') && |t.run| < |t'.run|
  {
    var t1, c1 := Extend(t, ids, c, LATE, i, StepsDown(LATE, 0), StepDown(c.nodes[i], LATE, 0), {});
    t', c' := Wins(t1, ids, c1, j, {j}, second);
    ContinuesOn(t, t1, t');
  }
}
