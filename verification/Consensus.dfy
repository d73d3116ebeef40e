/**
 Ballots: proposals that are voted on by up to K voters and decided as soon as the
 votes counted so far decide them, against a threshold in 16.16 fixed point.

 `Ballot` and `State` are the values; `ConsensusCtx` updates the ballot array in
 place.
 */
module Consensus {
  import opened Types

  const K: nat := 7
  const MAX_BALLOTS: nat := 4
  const INVALID_BALLOT: nat := 0

  datatype Vote = Abstain | Yes | No | Inhibit

  datatype Verdict = Pending | Approved | Rejected | Timeout | Cancelled

  /** A slot that has not been voted in holds an abstention. */
  datatype Ballot = Ballot(
    id: nat, proposer: ModuleId, threshold: int, votes: seq<Vote>,
    voteCount: nat, yesCount: nat, noCount: nat, verdict: Verdict, completed: bool)

  /** The share of x in n, rounded down. */
  function Ratio(x: nat, n: nat): (r: int) {
    if n > 0 then x * 0x1_0000 / n else 0
  }

  function Evaluate(b: Ballot, n: nat): Verdict {
    if b.completed then b.verdict
    else if b.voteCount < n then
      if Ratio(b.yesCount + (n - b.voteCount), n) < b.threshold then Rejected
      else if Ratio(b.yesCount, n) >= b.threshold then Approved
      else Pending
    else if Ratio(b.yesCount, n) >= b.threshold then Approved
    else Rejected
  }

  function Finalized(b: Ballot, v: Verdict): Ballot {
    b.(verdict := v, completed := true)
  }

  /** A new ballot of one's own, with or without one's own vote in slot 0. */
  function Proposed(id: nat, me: ModuleId, threshold: int, selfVote: bool): Ballot {
    var blank := [Abstain, Abstain, Abstain, Abstain, Abstain, Abstain, Abstain];
    if selfVote then Ballot(id, me, threshold, blank[0 := Yes], 1, 1, 0, Pending, false)
    else Ballot(id, me, threshold, blank, 0, 0, 0, Pending, false)
  }

  /** A vote other than an inhibition, on a ballot that is still open. */
  function Counted(b: Ballot, voter: ModuleId, vote: Vote): Ballot
    requires |b.votes| == K
  {
    var slot := voter % K;
    if b.votes[slot] != Abstain then b else
    var b1 := b.(votes := b.votes[slot := vote], voteCount := b.voteCount + 1,
                 yesCount := b.yesCount + (if vote == Yes then 1 else 0),
                 noCount := b.noCount + (if vote == No then 1 else 0));
    var v := Evaluate(b1, K);
    if v != Pending then Finalized(b1, v) else b1
  }

  // ------------------------------------------------------------------ counts

  function Count(votes: seq<Vote>, v: Vote): (c: nat)
    ensures c <= |votes|
  {
    if votes == [] then 0 else Count(votes[1..], v) + if votes[0] == v then 1 else 0
  }

  lemma {:induction false} CountSet(votes: seq<Vote>, i: nat, w: Vote, v: Vote)
    requires i < |votes|
    ensures Count(votes[i := w], v) == Count(votes, v) - (if votes[i] == v then 1 else 0) + (if w == v then 1 else 0)
  {
    if i == 0 {
      assert votes[0 := w][1..] == votes[1..];
    } else {
      CountSet(votes[1..], i - 1, w, v);
      assert votes[i := w][1..] == votes[1..][i - 1 := w];
    }
  }

  /** The counters are those of the slots; what was counted beyond the votes in the
      slots are abstentions. */
  ghost predicate CountsOk(b: Ballot) {
    && |b.votes| == K && Count(b.votes, Inhibit) == 0
    && b.yesCount == Count(b.votes, Yes) && b.noCount == Count(b.votes, No)
    && b.yesCount + b.noCount <= b.voteCount <= K
    && (b.voteCount == K ==> b.completed)
  }

  /** Abstentions that were counted as votes. */
  function Abstentions(b: Ballot): int {
    b.voteCount - b.yesCount - b.noCount
  }

  lemma {:induction false} CountsAddUp(votes: seq<Vote>)
    ensures Count(votes, Yes) + Count(votes, No) + Count(votes, Inhibit) + Count(votes, Abstain) == |votes|
  {
    if votes != [] { CountsAddUp(votes[1..]); }
  }

  lemma CountedKeepsCounts(b: Ballot, voter: ModuleId, vote: Vote)
    requires CountsOk(b) && !b.completed && vote != Inhibit
    ensures CountsOk(Counted(b, voter, vote))
  {
    var slot := voter % K;
    CountSet(b.votes, slot, vote, Yes);
    CountSet(b.votes, slot, vote, No);
    CountSet(b.votes, slot, vote, Inhibit);
  }

  // ------------------------------------------------------- deciding early

  /** The ballot after the missing votes have all been counted. */
  function FullCount(b: Ballot, yes: nat): Verdict
    requires !b.completed
  {
    Evaluate(b.(voteCount := K, yesCount := b.yesCount + yes), K)
  }

  lemma RatioMonotone(x: nat, y: nat)
    requires x <= y
    ensures Ratio(x, K) <= Ratio(y, K) && (x < y ==> Ratio(x, K) < Ratio(y, K))
  {}

  /** A ballot is decided early exactly when every way to complete it to K votes
      gives the same verdict, and it gets that verdict. */
  lemma EarlyIsFullCount(b: Ballot, v: Verdict)
    requires !b.completed && b.voteCount <= K && v in {Approved, Rejected}
    ensures Evaluate(b, K) == v <==> forall yes: nat :: yes <= K - b.voteCount ==> FullCount(b, yes) == v
    ensures Evaluate(b, K) in {Approved, Rejected, Pending}
  {
    var rest := K - b.voteCount;
    forall yes: nat | yes <= rest
      ensures FullCount(b, yes) == (if Ratio(b.yesCount + yes, K) >= b.threshold then Approved else Rejected)
              && Ratio(b.yesCount, K) <= Ratio(b.yesCount + yes, K) <= Ratio(b.yesCount + rest, K)
    {
      RatioMonotone(b.yesCount, b.yesCount + yes);
      RatioMonotone(b.yesCount + yes, b.yesCount + rest);
    }
    assert FullCount(b, 0) in {Approved, Rejected} && FullCount(b, rest) in {Approved, Rejected};
  }

  /** How the K slots may end up: those voted in stay, the others may be anything. */
  ghost predicate Completes(votes: seq<Vote>, final: seq<Vote>) {
    |final| == |votes| && forall i :: 0 <= i < |votes| && votes[i] != Abstain ==> final[i] == votes[i]
  }

  predicate Passes(final: seq<Vote>, threshold: int) {
    Ratio(Count(final, Yes), K) >= threshold
  }

  function Filled(votes: seq<Vote>): (r: seq<Vote>)
    ensures Completes(votes, r)
  {
    seq(|votes|, i requires 0 <= i < |votes| => if votes[i] == Abstain then Yes else votes[i])
  }

  lemma {:induction false} CompletionBounds(votes: seq<Vote>, final: seq<Vote>)
    requires Completes(votes, final)
    ensures Count(votes, Yes) <= Count(final, Yes) <= Count(votes, Yes) + Count(votes, Abstain)
  {
    if votes != [] {
      assert forall i :: 0 <= i < |votes| - 1 ==> votes[1..][i] == votes[i + 1] && final[1..][i] == final[i + 1];
      CompletionBounds(votes[1..], final[1..]);
    }
  }

  lemma {:induction false} FilledCounts(votes: seq<Vote>)
    ensures Count(Filled(votes), Yes) == Count(votes, Yes) + Count(votes, Abstain)
  {
    if votes != [] {
      assert Filled(votes)[1..] == Filled(votes[1..]);
      FilledCounts(votes[1..]);
    }
  }

  /** What the slots alone decide. */
  ghost function Determined(votes: seq<Vote>, threshold: int): Verdict {
    if forall final :: Completes(votes, final) ==> Passes(final, threshold) then Approved
    else if forall final :: Completes(votes, final) ==> !Passes(final, threshold) then Rejected
    else Pending
  }

  lemma DeterminedByCounts(votes: seq<Vote>, threshold: int)
    ensures var y := Count(votes, Yes);
            Determined(votes, threshold) ==
              if Ratio(y, K) >= threshold then Approved
              else if Ratio(y + Count(votes, Abstain), K) < threshold then Rejected
              else Pending
  {
    var y, most := Count(votes, Yes), Count(votes, Yes) + Count(votes, Abstain);
    FilledCounts(votes);
    assert Completes(votes, votes) && Completes(votes, Filled(votes));
    forall final | Completes(votes, final) ensures Ratio(y, K) <= Ratio(Count(final, Yes), K) <= Ratio(most, K) {
      CompletionBounds(votes, final);
      RatioMonotone(y, Count(final, Yes));
      RatioMonotone(Count(final, Yes), most);
    }
  }

  /** Early decisions are those that the slots decide, whatever the threshold, exactly
      when no abstention was counted: a counted abstention leaves its slot open to
      a vote, but is taken for a missing yes. */
  lemma AbstentionsMislead(b: Ballot)
    requires CountsOk(b.(completed := true)) && !b.completed
    ensures (forall t: int :: Evaluate(b.(threshold := t), K) == Determined(b.votes, t)) <==> Abstentions(b) == 0
  {
    CountsAddUp(b.votes);
    var open := Count(b.votes, Abstain);
    forall t: int ensures Abstentions(b) == 0 ==> Evaluate(b.(threshold := t), K) == Determined(b.votes, t) {
      DeterminedByCounts(b.votes, t);
      RatioMonotone(b.yesCount, b.yesCount + open);
    }
    if Abstentions(b) != 0 {
      var t := Ratio(b.yesCount + open, K);
      DeterminedByCounts(b.votes, t);
      RatioMonotone(b.yesCount + (K - b.voteCount), b.yesCount + open);
      RatioMonotone(b.yesCount, b.yesCount + open);
      assert Evaluate(b.(threshold := t), K) == Rejected;
    }
  }

  // ------------------------------------------------------------------- runs

  datatype Result = Done | InvalidArg | Busy | NotFound | Inhibited

  datatype State = State(me: ModuleId, ballots: seq<Ballot>, nextId: nat, selfVote: bool)

  function Init(me: ModuleId, selfVote: bool): State {
    State(me, [], 1, selfVote)
  }

  function Find(ballots: seq<Ballot>, id: nat): nat {
    FindBy(ballots, (b: Ballot) => b.id, id)
  }

  lemma FoundAt(ballots: seq<Ballot>, id: nat, i: nat)
    requires i <= |ballots| && (i < |ballots| ==> ballots[i].id == id) && forall k :: 0 <= k < i ==> ballots[k].id != id
    ensures i == Find(ballots, id)
  {}

  function Propose(s: State, threshold: int): (State, Result) {
    if |s.ballots| >= MAX_BALLOTS then (s, Busy)
    else (s.(ballots := s.ballots + [Proposed(s.nextId, s.me, threshold, s.selfVote)], nextId := s.nextId + 1), Done)
  }

  function OnVote(s: State, voter: ModuleId, id: nat, vote: Vote): (State, Result)
    requires AllShaped(s.ballots)
  {
    var i := Find(s.ballots, id);
    if voter == INVALID_MODULE_ID || id == INVALID_BALLOT then (s, InvalidArg)
    else if vote == Inhibit then
      (if i < |s.ballots| && !s.ballots[i].completed then s.(ballots := s.ballots[i := Finalized(s.ballots[i], Cancelled)]) else s,
       Done)
    else if i == |s.ballots| then (s, NotFound)
    else if s.ballots[i].proposer != s.me then (s, InvalidArg)
    else if s.ballots[i].completed then (s, Done)
    else (s.(ballots := s.ballots[i := Counted(s.ballots[i], voter, vote)]), Done)
  }

  /** `inhibited` says whether the ballot is on the inhibition list just now. */
  function OnProposal(s: State, proposer: ModuleId, id: nat, threshold: int, inhibited: bool): (State, Result) {
    if proposer == INVALID_MODULE_ID || id == INVALID_BALLOT then (s, InvalidArg)
    else if proposer == s.me then (s, Done)
    else if inhibited then (s, Result.Inhibited)
    else if Find(s.ballots, id) < |s.ballots| then (s, Done)
    else if |s.ballots| >= MAX_BALLOTS then (s, Busy)
    else (s.(ballots := s.ballots + [Proposed(id, proposer, threshold, false)]), Done)
  }

  /** One's own inhibition cancels a ballot even when it is decided. */
  function OwnInhibit(s: State, id: nat): (State, Result) {
    var i := Find(s.ballots, id);
    if id == INVALID_BALLOT then (s, InvalidArg)
    else (if i < |s.ballots| then s.(ballots := s.ballots[i := Finalized(s.ballots[i], Cancelled)]) else s, Done)
  }

  predicate AllShaped(ballots: seq<Ballot>) {
    forall i :: 0 <= i < |ballots| ==> |ballots[i].votes| == K
  }

  /** Counters tied to slots, and a verdict that the counters bear out. */
  ghost predicate BallotOk(b: Ballot) {
    && CountsOk(b)
    && (b.completed <==> b.verdict != Pending) && b.verdict != Timeout
    && (b.verdict == Approved ==> Ratio(b.yesCount, K) >= b.threshold)
    && (b.verdict == Rejected ==> Ratio(b.yesCount + (K - b.voteCount), K) < b.threshold)
  }

  ghost predicate Inv(s: State) {
    |s.ballots| <= MAX_BALLOTS && forall i :: 0 <= i < |s.ballots| ==> BallotOk(s.ballots[i])
  }

  datatype Event =
    | Proposes(threshold: int)
    | Votes(voter: ModuleId, id: nat, vote: Vote)
    | Hears(proposer: ModuleId, id: nat, threshold: int, inhibited: bool)
    | Inhibits(id: nat)

  function Apply(s: State, ev: Event): State
    requires AllShaped(s.ballots)
  {
    match ev
    case Proposes(threshold) => Propose(s, threshold).0
    case Votes(voter, id, vote) => OnVote(s, voter, id, vote).0
    case Hears(proposer, id, threshold, inhibited) => OnProposal(s, proposer, id, threshold, inhibited).0
    case Inhibits(id) => OwnInhibit(s, id).0
  }

  lemma CountedKeepsOk(b: Ballot, voter: ModuleId, vote: Vote)
    requires BallotOk(b) && !b.completed && vote != Inhibit
    ensures BallotOk(Counted(b, voter, vote))
  {
    CountedKeepsCounts(b, voter, vote);
  }

  lemma ProposedIsOk(id: nat, me: ModuleId, threshold: int, selfVote: bool)
    ensures BallotOk(Proposed(id, me, threshold, selfVote))
  {
    var blank := [Abstain, Abstain, Abstain, Abstain, Abstain, Abstain, Abstain];
    NoneCounted(blank, Yes);
    NoneCounted(blank, No);
    NoneCounted(blank, Inhibit);
    CountSet(blank, 0, Yes, Yes);
    CountSet(blank, 0, Yes, No);
    CountSet(blank, 0, Yes, Inhibit);
  }

  lemma {:induction false} NoneCounted(votes: seq<Vote>, v: Vote)
    requires forall i :: 0 <= i < |votes| ==> votes[i] != v
    ensures Count(votes, v) == 0
  {
    if votes != [] { NoneCounted(votes[1..], v); }
  }

  // --------------------------------------------------- each call's outcome

  /** The threshold is met exactly when x times 2^16 is at least threshold times n. */
  lemma RatioMeets(x: nat, n: nat, threshold: int)
    requires n > 0
    ensures Ratio(x, n) >= threshold <==> x * 0x1_0000 >= threshold * n
  {
    var q := x * 0x1_0000 / n;
    assert q * n <= x * 0x1_0000 < (q + 1) * n by { DivBounds(x * 0x1_0000, n); }
    if q >= threshold { Scales(threshold, q, n); }
    if q < threshold { Scales(q + 1, threshold, n); }
  }

  lemma DivBounds(a: nat, n: nat)
    requires n > 0
    ensures a / n * n <= a < (a / n + 1) * n
  {
    assert a == a / n * n + a % n;
  }

  lemma Scales(a: int, b: int, n: nat)
    requires a <= b
    ensures a * n <= b * n
  {}

  /** A vote on an open ballot goes to the slot of the voter's number modulo seven, unless
      a YES or a NO is there already. The ballot is then approved exactly if the YES
      votes alone meet the threshold, rejected exactly if they would not even with all
      that are missing, and open otherwise. */
  lemma VoteCounts(b: Ballot, voter: ModuleId, vote: Vote)
    requires BallotOk(b) && !b.completed && vote != Inhibit
    ensures var c, slot := Counted(b, voter, vote), voter % 7;
            if b.votes[slot] == Yes || b.votes[slot] == No then c == b
            else && c.votes == b.votes[slot := vote] && c.voteCount == b.voteCount + 1
                 && c.yesCount == b.yesCount + (if vote == Yes then 1 else 0) && c.noCount == b.noCount + (if vote == No then 1 else 0)
                 && c.id == b.id && c.proposer == b.proposer && c.threshold == b.threshold
                 && c.verdict == (if c.yesCount * 0x1_0000 >= c.threshold * 7 then Approved
                                  else if (c.yesCount + (7 - c.voteCount)) * 0x1_0000 < c.threshold * 7 then Rejected else Pending)
                 && c.completed == (c.verdict != Pending)
  {
    var c, slot := Counted(b, voter, vote), voter % K;
    NoInhibitions(b.votes, slot);
    RatioMeets(c.yesCount, K, b.threshold);
    if c.voteCount <= K { RatioMeets(c.yesCount + (K - c.voteCount), K, b.threshold); }
  }

  lemma {:induction false} NoInhibitions(votes: seq<Vote>, i: nat)
    requires i < |votes| && Count(votes, Inhibit) == 0
    ensures votes[i] != Inhibit
  {
    if i > 0 { NoInhibitions(votes[1..], i - 1); }
  }

  /** Where ballot `id` stands first. */
  ghost predicate FirstAt(ballots: seq<Ballot>, id: nat, i: nat) {
    i < |ballots| && ballots[i].id == id && forall j :: 0 <= j < i ==> ballots[j].id != id
  }

  /** What is done about ballot i, and to no other. */
  function WithBallot(s: State, i: nat, b: Ballot): State
    requires i < |s.ballots|
  {
    s.(ballots := s.ballots[i := b])
  }

  /** Votes on a known ballot: only its proposer counts them, and only while it is open;
      an inhibition cancels an open ballot, one's own inhibition any ballot. */
  lemma KnownBallotOutcome(s: State, i: nat, voter: ModuleId, id: nat, vote: Vote)
    requires AllShaped(s.ballots) && FirstAt(s.ballots, id, i) && voter != INVALID_MODULE_ID && id != INVALID_BALLOT
    ensures var b, (s', r) := s.ballots[i], OnVote(s, voter, id, vote);
            var cancelled := b.(verdict := Cancelled, completed := true);
            if vote == Inhibit then r == Done && s' == (if b.completed then s else WithBallot(s, i, cancelled))
            else if b.proposer != s.me then r == InvalidArg && s' == s
            else r == Done && s' == if b.completed then s else WithBallot(s, i, Counted(b, voter, vote))
    ensures OwnInhibit(s, id) == (WithBallot(s, i, s.ballots[i].(verdict := Cancelled, completed := true)), Done)
  {
    FoundAt(s.ballots, id, i);
    assert s.ballots[i := s.ballots[i]] == s.ballots;
  }

  /** Number 0 is no module and no ballot. */
  lemma NumberZero(s: State, voter: ModuleId, id: nat, vote: Vote, threshold: int, inhibited: bool)
    requires AllShaped(s.ballots) && (voter == 0 || id == 0)
    ensures OnVote(s, voter, id, vote) == (s, InvalidArg) && OnProposal(s, voter, id, threshold, inhibited) == (s, InvalidArg)
    ensures id == 0 ==> OwnInhibit(s, id) == (s, InvalidArg)
  {}

  /** On an unknown ballot a vote is answered as such, and an inhibition changes nothing. */
  lemma UnknownBallotOutcome(s: State, voter: ModuleId, id: nat, vote: Vote)
    requires AllShaped(s.ballots) && voter != INVALID_MODULE_ID && id != INVALID_BALLOT
    requires forall j :: 0 <= j < |s.ballots| ==> s.ballots[j].id != id
    ensures OnVote(s, voter, id, vote) == (s, if vote == Inhibit then Done else NotFound) && OwnInhibit(s, id) == (s, Done)
  {
    FoundAt(s.ballots, id, |s.ballots|);
  }

  /** A proposal is taken up, as an open ballot without votes, exactly if it comes from
      another module, is not inhibited, is new, and fewer than four ballots are there. */
  lemma ProposalOutcome(s: State, proposer: ModuleId, id: nat, threshold: int, inhibited: bool)
    requires proposer != INVALID_MODULE_ID && id != INVALID_BALLOT
    ensures var known, full := exists j :: 0 <= j < |s.ballots| && s.ballots[j].id == id, |s.ballots| >= 4;
            var blank := seq(7, _ => Abstain); var (s', r) := OnProposal(s, proposer, id, threshold, inhibited);
            if proposer != s.me && !inhibited && !known && !full
            then r == Done && s' == s.(ballots := s.ballots + [Ballot(id, proposer, threshold, blank, 0, 0, 0, Pending, false)])
            else s' == s && r == if proposer == s.me then Done else if inhibited then Result.Inhibited else if known then Done else Busy
  {
    var i := Find(s.ballots, id);
    if i == |s.ballots| {
      assert !exists j :: 0 <= j < |s.ballots| && s.ballots[j].id == id;
    }
    assert seq(7, _ => Abstain) == [Abstain, Abstain, Abstain, Abstain, Abstain, Abstain, Abstain];
  }

  /** One's own proposal gets the next number, with one's own YES in the first slot if one
      votes oneself; four ballots are the most. */
  lemma OwnProposalOutcome(s: State, threshold: int)
    ensures var (s', r) := Propose(s, threshold); var mine := if s.selfVote then 1 else 0;
            var votes := [if s.selfVote then Yes else Abstain, Abstain, Abstain, Abstain, Abstain, Abstain, Abstain];
            if |s.ballots| >= 4 then s' == s && r == Busy
            else r == Done && s' == s.(nextId := s.nextId + 1,
                                       ballots := s.ballots + [Ballot(s.nextId, s.me, threshold, votes, mine, mine, 0, Pending, false)])
  {
    var votes := [if s.selfVote then Yes else Abstain, Abstain, Abstain, Abstain, Abstain, Abstain, Abstain];
    assert Proposed(s.nextId, s.me, threshold, s.selfVote).votes == votes;
  }

  lemma VoteKeepsInv(s: State, voter: ModuleId, id: nat, vote: Vote)
    requires Inv(s)
    ensures Inv(OnVote(s, voter, id, vote).0)
  {
    var i := Find(s.ballots, id);
    if i < |s.ballots| && !s.ballots[i].completed && vote != Inhibit {
      CountedKeepsOk(s.ballots[i], voter, vote);
    }
  }

  lemma StepKeepsInv(s: State, ev: Event)
    requires Inv(s)
    ensures Inv(Apply(s, ev))
  {
    match ev
    case Proposes(threshold) => ProposedIsOk(s.nextId, s.me, threshold, s.selfVote);
    case Votes(voter, id, vote) => VoteKeepsInv(s, voter, id, vote);
    case Hears(proposer, id, threshold, _) => ProposedIsOk(id, proposer, threshold, false);
    case Inhibits(_) =>
  }

  function Run(s: State, evs: seq<Event>): (r: State)
    requires Inv(s)
    ensures Inv(r)
    decreases evs
  {
    if evs == [] then s else StepKeepsInv(s, evs[0]); Run(Apply(s, evs[0]), evs[1..])
  }

  /** Over any run, a ballot that was approved passes however its slots are completed,
      and one that was rejected without counting an abstention cannot pass. */
  lemma VerdictsStand(me: ModuleId, selfVote: bool, evs: seq<Event>, i: nat, final: seq<Vote>)
    requires i < |Run(Init(me, selfVote), evs).ballots|
    requires Completes(Run(Init(me, selfVote), evs).ballots[i].votes, final)
    ensures var b := Run(Init(me, selfVote), evs).ballots[i];
            && (b.verdict == Approved ==> Passes(final, b.threshold))
            && (b.verdict == Rejected && Abstentions(b) == 0 ==> !Passes(final, b.threshold))
            && b.yesCount == Count(b.votes, Yes) && b.noCount == Count(b.votes, No)
  {
    var b := Run(Init(me, selfVote), evs).ballots[i];
    assert BallotOk(b);
    CountsAddUp(b.votes);
    CompletionBounds(b.votes, final);
    RatioMonotone(b.yesCount, Count(final, Yes));
    RatioMonotone(Count(final, Yes), b.yesCount + Count(b.votes, Abstain));
  }

  /** Seven abstentions of one module reject a ballot nobody has voted on. */
  lemma OneModuleRejects(me: ModuleId, voter: ModuleId, threshold: int, evs: seq<Event>)
    requires voter != INVALID_MODULE_ID && threshold > 0
    requires |evs| == K && forall k :: 0 <= k < K ==> evs[k] == Votes(voter, 1, Abstain)
    ensures var bs := Run(Init(me, false), [Proposes(threshold)] + evs).ballots;
            |bs| == 1 && bs[0].verdict == Rejected && Count(bs[0].votes, Abstain) == K
  {
    var all := [Proposes(threshold)] + evs;
    assert all[1..] == evs;
    var s := Apply(Init(me, false), all[0]);
    ProposedIsOk(1, me, threshold, false);
    AbstentionsPileUp(s, voter, evs);
  }

  ghost predicate NobodyVoted(s: State) {
    && |s.ballots| == 1
    && var b := s.ballots[0];
    && b.id == 1 && b.proposer == s.me && b.threshold > 0
    && Count(b.votes, Abstain) == K && b.yesCount == 0
  }

  lemma {:induction false} AbstentionsPileUp(s: State, voter: ModuleId, evs: seq<Event>)
    requires Inv(s) && NobodyVoted(s) && voter != INVALID_MODULE_ID
    requires forall k :: 0 <= k < |evs| ==> evs[k] == Votes(voter, 1, Abstain)
    requires var b := s.ballots[0]; b.verdict == Rejected || (!b.completed && b.voteCount + |evs| >= K)
    ensures NobodyVoted(Run(s, evs)) && Run(s, evs).ballots[0].verdict == Rejected
    decreases |evs|
  {
    if evs != [] {
      var b := s.ballots[0];
      if !b.completed {
        AllAbstain(b.votes, voter % K);
        assert b.votes[voter % K := Abstain] == b.votes;
      }
      AbstentionsPileUp(Apply(s, evs[0]), voter, evs[1..]);
    }
  }

  lemma {:induction false} AllAbstain(votes: seq<Vote>, i: nat)
    requires i < |votes| && Count(votes, Abstain) == |votes|
    ensures votes[i] == Abstain
  {
    if i > 0 { AllAbstain(votes[1..], i - 1); }
  }

  // ---------------------------------------------------------------- in place

  class ConsensusCtx {
    const me: ModuleId
    const selfVote: bool
    const ballots: array<Ballot>
    var count: nat
    var nextId: nat

    ghost predicate Shape() reads this {
      ballots.Length == MAX_BALLOTS && count <= MAX_BALLOTS
    }

    ghost predicate Ok() reads this, ballots {
      Shape() && Inv(View())
    }

    ghost function View(): State reads this, ballots
      requires Shape()
    {
      State(me, ballots[..count], nextId, selfVote)
    }

    constructor (me: ModuleId, selfVote: bool)
      ensures Ok() && View() == Init(me, selfVote)
    {
      this.me, this.selfVote := me, selfVote;
      ballots := new Ballot[MAX_BALLOTS](_ => Ballot(INVALID_BALLOT, INVALID_MODULE_ID, 0, [], 0, 0, 0, Pending, false));
      count, nextId := 0, 1;
    }

    method FindBallot(id: nat) returns (i: nat)
      requires Shape()
      ensures i == Find(View().ballots, id)
    {
      i := 0;
      while i < count && ballots[i].id != id
        invariant i <= count && forall k :: 0 <= k < i ==> ballots[k].id != id
      {
        i := i + 1;
      }
      FoundAt(View().ballots, id, i);
    }

    method AddBallot(b: Ballot)
      requires Shape() && count < MAX_BALLOTS
      modifies this`count, ballots
      ensures Shape() && View() == old(View()).(ballots := old(View()).ballots + [b])
    {
      ballots[count] := b;
      count := count + 1;
    }

    method MakeProposal(threshold: int) returns (r: Result)
      requires Ok()
      modifies this, ballots
      ensures Ok() && (View(), r) == Propose(old(View()), threshold)
    {
      StepKeepsInv(View(), Proposes(threshold));
      if count >= MAX_BALLOTS { return Busy; }
      AddBallot(Proposed(nextId, me, threshold, selfVote));
      nextId := nextId + 1;
      return Done;
    }

    method Store(i: nat, b: Ballot)
      requires Shape() && i < count
      modifies ballots
      ensures View() == old(View()).(ballots := old(View()).ballots[i := b])
    {
      ballots[i] := b;
    }

    method HandleVote(voter: ModuleId, id: nat, vote: Vote) returns (r: Result)
      requires Ok()
      modifies ballots
      ensures Ok() && (View(), r) == OnVote(old(View()), voter, id, vote)
    {
      StepKeepsInv(View(), Votes(voter, id, vote));
      if voter == INVALID_MODULE_ID || id == INVALID_BALLOT { return InvalidArg; }
      var i := FindBallot(id);
      if vote == Inhibit {
        if i < count && !ballots[i].completed {
          Store(i, Finalized(ballots[i], Cancelled));
        }
        return Done;
      }
      if i == count { return NotFound; }
      if ballots[i].proposer != me { return InvalidArg; }
      if ballots[i].completed { return Done; }
      CountVote(i, voter, vote);
      return Done;
    }

    method CountVote(i: nat, voter: ModuleId, vote: Vote)
      requires Shape() && i < count && |ballots[i].votes| == K
      modifies ballots
      ensures View() == old(View()).(ballots := old(View()).ballots[i := Counted(old(View()).ballots[i], voter, vote)])
    {
      var b := ballots[i];
      var slot := voter % K;
      if b.votes[slot] != Abstain {
        Store(i, b);
        return;
      }
      b := b.(votes := b.votes[slot := vote], voteCount := b.voteCount + 1);
      match vote {
        case Yes => b := b.(yesCount := b.yesCount + 1);
        case No => b := b.(noCount := b.noCount + 1);
        case _ =>
      }
      var verdict := Evaluate(b, K);
      if verdict != Pending { b := Finalized(b, verdict); }
      Store(i, b);
    }
  }
}
