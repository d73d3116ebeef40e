/**
 The partition state machine of one module: quorum loss, freeze, and the
 power ramp of a module that rejoins. `Ctx` is the value of the context
 struct; the class `PartitionCtx` updates the same fields in place and is
 proved to step exactly as the value functions do.
 */
module Partition {
  import opened Types

  datatype State = Healthy | Suspecting | Majority | Minority | Reconciling

  const FIXED_ONE: int := 0x1_0000
  const POWER_RAMP_RATE: int := 6553  // 0.1 in Q16.16, truncated, per second
  const CONFIRM_TIMEOUT_US: nat := 100000
  const RECOVERY_MAX_US: nat := 10000000

  datatype Ctx = Ctx(
    state: State, epoch: Word32,
    totalModules: nat, visibleCount: nat, quorumSize: nat,
    stateEnterTime: TimeUs, lastTick: TimeUs, suspectingStart: TimeUs,
    ramp: int, targetPower: int, freezeActive: bool,
    syncReceived: nat, syncComplete: bool, maxObservedEpoch: Word32)

  function Init(totalModules: nat): Ctx
    requires totalModules > 0
  {
    Ctx(Healthy, 1, totalModules, totalModules, totalModules / 2 + 1, 0, 0, 0,
        FIXED_ONE, FIXED_ONE, false, 0, false, 1)
  }

  function Transition(c: Ctx, to: State, now: TimeUs): Ctx {
    if c.state == to then c else
    var d := c.(state := to, stateEnterTime := now);
    match to
    case Healthy => d.(freezeActive := false, ramp := FIXED_ONE, targetPower := FIXED_ONE)
    case Suspecting => d.(suspectingStart := now)
    case Majority => d.(epoch := (d.epoch + 1) % TWO32, freezeActive := false, ramp := FIXED_ONE)
    case Minority => d.(freezeActive := true, ramp := 0)
    case Reconciling => d.(freezeActive := false, ramp := 0, targetPower := FIXED_ONE,
                           syncReceived := 0, syncComplete := false)
  }

  /** rate * elapsed / 1e6: a 64-bit product whose quotient is cut to 32 bits. */
  function RampIncrement(elapsed: TimeUs): int {
    ToInt32(((POWER_RAMP_RATE * elapsed) % TWO64) / 1000000)
  }

  function UpdateRamp(c: Ctx, elapsed: TimeUs): Ctx {
    if c.ramp >= c.targetPower then c.(ramp := c.targetPower)
    else c.(ramp := Min(ToInt32(c.ramp + RampIncrement(elapsed)), c.targetPower))
  }

  function AdoptEpoch(c: Ctx): Ctx {
    c.(epoch := Max(c.epoch, c.maxObservedEpoch))
  }

  function Reconcile(c: Ctx, elapsed: TimeUs, timeInState: TimeUs, now: TimeUs): Ctx {
    var d := UpdateRamp(c, elapsed);
    var e := if d.syncComplete && d.ramp >= FIXED_ONE
             then Transition(AdoptEpoch(d), Healthy, now) else d;
    if timeInState >= RECOVERY_MAX_US then
      Transition(AdoptEpoch(e.(syncComplete := true, ramp := FIXED_ONE)), Healthy, now)
    else e
  }

  function Tick(ctx: Ctx, now: TimeUs): Ctx {
    var elapsed := Elapsed(now, ctx.lastTick);
    var c := ctx.(lastTick := now);
    var quorate := c.visibleCount >= c.quorumSize;
    match c.state
    case Healthy => if quorate then c else Transition(c, Suspecting, now)
    case Suspecting =>
      if Elapsed(now, c.suspectingStart) >= CONFIRM_TIMEOUT_US then
        Transition(c, if quorate then Majority else Minority, now)
      else if quorate then Transition(c, Healthy, now)
      else c
    case Majority =>
      if c.visibleCount >= c.totalModules then Transition(c, Healthy, now)
      else if !quorate then Transition(c, Suspecting, now)
      else c
    case Minority =>
      if c.maxObservedEpoch > c.epoch then Transition(c, Reconciling, now) else c
    case Reconciling => Reconcile(c, elapsed, Elapsed(now, c.stateEnterTime), now)
  }

  datatype Event =
    | Ticked(now: TimeUs)
    | Visibility(count: nat)
    | EpochReceived(remote: Word32)
    | SyncReceived

  function Apply(c: Ctx, ev: Event): Ctx {
    match ev
    case Ticked(now) => Tick(c, now)
    case Visibility(n) => c.(visibleCount := n)
    case EpochReceived(r) => c.(maxObservedEpoch := Max(c.maxObservedEpoch, r))
    case SyncReceived =>
      if c.state == Reconciling then c.(syncReceived := c.syncReceived + 1, syncComplete := true)
      else c
  }

  function PowerFactor(c: Ctx): int {
    match c.state
    case Minority => 0
    case Reconciling => c.ramp
    case _ => FIXED_ONE
  }

  predicate CanVote(s: State) { s in {Healthy, Majority, Suspecting} }

  predicate CanElect(s: State) { s in {Healthy, Majority} }

  /** The clock never runs backwards between two ticks. */
  predicate Timely(c: Ctx, ev: Event) {
    ev.Ticked? ==> c.lastTick <= ev.now
  }

  /** What every reachable context satisfies. */
  ghost predicate Inv(c: Ctx) {
    && c.quorumSize == c.totalModules / 2 + 1
    && c.stateEnterTime <= c.lastTick
    && (c.freezeActive <==> c.state == Minority)
    && 0 <= PowerFactor(c) <= FIXED_ONE
    && (c.state == Reconciling ==>
          && c.targetPower == FIXED_ONE
          && c.lastTick - c.stateEnterTime < RECOVERY_MAX_US
          && 1000000 * c.ramp <= POWER_RAMP_RATE * (c.lastTick - c.stateEnterTime))
  }

  /** Below the recovery limit the increment is the plain quotient. */
  lemma RampIncrementExact(elapsed: TimeUs)
    requires elapsed < RECOVERY_MAX_US
    ensures 0 <= RampIncrement(elapsed)
    ensures 1000000 * RampIncrement(elapsed) <= POWER_RAMP_RATE * elapsed < 1000000 * (RampIncrement(elapsed) + 1)
  {
    assert 0 <= POWER_RAMP_RATE * elapsed < TWO64;
  }

  /** Where a tick leads from any state but RECONCILING: quorum lost is suspected at once,
      and confirmed or withdrawn when it has been suspected for 100 ms; a minority
      rejoins when it has heard of a higher epoch. */
  function TickLeadsTo(c: Ctx, now: TimeUs): State {
    var quorate, confirmed := c.visibleCount > c.quorumSize - 1, Elapsed(now, c.suspectingStart) >= 100000;
    if c.state == Minority then (if c.epoch < c.maxObservedEpoch then Reconciling else Minority)
    else if c.state == Suspecting && confirmed then (if quorate then Majority else Minority)
    else if !quorate && !(c.state == Majority && c.visibleCount >= c.totalModules) then Suspecting
    else if c.state == Majority && c.visibleCount < c.totalModules then Majority
    else Healthy
  }

  /** All a tick does outside RECONCILING: where it leads, when that was entered, and
      what entering it sets. */
  lemma TickOutcome(c: Ctx, now: TimeUs)
    requires c.state != Reconciling
    ensures var d, to := Tick(c, now), TickLeadsTo(c, now);
            && d.state == to && d.lastTick == now
            && d.totalModules == c.totalModules && d.visibleCount == c.visibleCount && d.quorumSize == c.quorumSize
            && d.maxObservedEpoch == c.maxObservedEpoch
            && d.stateEnterTime == (if to == c.state then c.stateEnterTime else now)
            && d.suspectingStart == (if to == Suspecting && c.state != Suspecting then now else c.suspectingStart)
            && d.epoch == (if to == Majority && c.state == Suspecting then (c.epoch + 1) % TWO32 else c.epoch)
            && d.freezeActive == (if to == c.state || to == Suspecting then c.freezeActive else to == Minority)
            && d.ramp == (if to == c.state || to == Suspecting then c.ramp else if to in {Healthy, Majority} then FIXED_ONE else 0)
            && d.targetPower == (if to != c.state && to in {Healthy, Reconciling} then FIXED_ONE else c.targetPower)
            && d.syncReceived == (if to == Reconciling then 0 else c.syncReceived)
            && d.syncComplete == (c.syncComplete && to != Reconciling)
  {}

  /** In RECONCILING, before the limit, a tick raises the ramp by the rate times the
      time since the last one, and does nothing else. */
  lemma ReconcilingTick(c: Ctx, now: TimeUs)
    requires Inv(c) && c.state == Reconciling && c.lastTick <= now && now - c.stateEnterTime < RECOVERY_MAX_US
    ensures Tick(c, now) == c.(lastTick := now, ramp := c.ramp + POWER_RAMP_RATE * (now - c.lastTick) / 1000000)
  {
    RampIncrementExact(Elapsed(now, c.lastTick));
  }

  /** Past the limit the module is healthy with full power and the higher epoch, its sync
      taken as complete. */
  lemma ReconcilingEnds(c: Ctx, now: TimeUs)
    requires Inv(c) && c.state == Reconciling && c.lastTick <= now && now - c.stateEnterTime >= RECOVERY_MAX_US
    ensures Tick(c, now) == c.(lastTick := now, state := Healthy, stateEnterTime := now, freezeActive := false, ramp := FIXED_ONE,
                               targetPower := FIXED_ONE, epoch := Max(c.epoch, c.maxObservedEpoch), syncComplete := true)
  {}

  /** A fresh context: healthy, at the first epoch, everybody in sight, full power. */
  lemma Fresh(total: nat)
    requires total > 0
    ensures var c := Init(total);
            && Inv(c) && c.state == Healthy && c.epoch == c.maxObservedEpoch == 1 && PowerFactor(c) == FIXED_ONE
            && c.totalModules == c.visibleCount == total && c.quorumSize == total / 2 + 1
            && c.stateEnterTime == c.lastTick == c.suspectingStart == 0 && c.ramp == c.targetPower == FIXED_ONE
            && c.syncReceived == 0 && !c.syncComplete
  {}

  /** A sync message counts, and completes the sync, while the module is RECONCILING and at
      no other time; the other events set the number in sight or raise the epoch heard. */
  lemma EventOutcome(c: Ctx, ev: Event)
    ensures ev.SyncReceived? ==>
              Apply(c, ev) == if c.state != Reconciling then c else c.(syncReceived := c.syncReceived + 1, syncComplete := true)
    ensures ev.Visibility? ==> Apply(c, ev) == c.(visibleCount := ev.count)
    ensures ev.EpochReceived? ==> Apply(c, ev) == if ev.remote <= c.maxObservedEpoch then c else c.(maxObservedEpoch := ev.remote)
  {}

  /** Cut off, a module gives no power; rejoining, as much as the ramp has reached; and
      full power at any other time. */
  lemma PowerByState(c: Ctx)
    ensures c.state == Minority ==> PowerFactor(c) == 0
    ensures c.state == Reconciling ==> PowerFactor(c) == c.ramp
    ensures c.state != Minority && c.state != Reconciling ==> PowerFactor(c) == 0x1_0000
  {}

  /** Two groups of modules that do not see each other never both find themselves in
      the majority. */
  lemma NoTwoMajorities(c: Ctx, c': Ctx, now: TimeUs, now': TimeUs)
    requires Inv(c) && Inv(c') && c.totalModules == c'.totalModules
    requires c.visibleCount + c'.visibleCount <= c.totalModules
    ensures !(Tick(c, now).state == Majority && Tick(c', now').state == Majority)
  {}

  /** A tick at or past the limit always leaves RECONCILING with full power and
      the higher epoch; a tick before it never does, because ten seconds of ramp
      stop short of 1.0, so a completed sync cannot end the state any earlier. */
  lemma ReconcilingEndsAtLimit(c: Ctx, now: TimeUs)
    requires Inv(c) && c.state == Reconciling && c.lastTick <= now
    ensures Tick(c, now).state == (if now - c.stateEnterTime >= RECOVERY_MAX_US then Healthy else Reconciling)
    ensures now - c.stateEnterTime >= RECOVERY_MAX_US ==>
              PowerFactor(Tick(c, now)) == FIXED_ONE && Tick(c, now).epoch == Max(c.epoch, c.maxObservedEpoch)
    ensures now - c.stateEnterTime < RECOVERY_MAX_US ==>
              && c.ramp <= Tick(c, now).ramp < FIXED_ONE
              && 1000000 * Tick(c, now).ramp <= POWER_RAMP_RATE * (now - c.stateEnterTime)
  {
    if now - c.stateEnterTime < RECOVERY_MAX_US {
      RampIncrementExact(Elapsed(now, c.lastTick));
    }
  }

  ghost predicate PowerHolds(c: Ctx, c': Ctx) {
    c.state == Reconciling && c'.state == Reconciling ==> PowerFactor(c) <= PowerFactor(c')
  }

  /** Entering MAJORITY at the largest epoch: the 32-bit increment wraps. */
  predicate Wraps(c: Ctx, ev: Event) {
    && ev.Ticked? && c.state == Suspecting && c.visibleCount >= c.quorumSize
    && Elapsed(ev.now, c.suspectingStart) >= CONFIRM_TIMEOUT_US
    && c.epoch == TWO32 - 1
  }

  /** The epoch goes down, to 0, exactly when it wraps. */
  lemma EpochDropsIff(c: Ctx, ev: Event)
    ensures Apply(c, ev).epoch < c.epoch <==> Wraps(c, ev)
    ensures Wraps(c, ev) ==> Apply(c, ev).epoch == 0
  {
    if !Wraps(c, ev) && c.epoch < TWO32 - 1 {
      assert (c.epoch + 1) % TWO32 == c.epoch + 1;
    }
  }

  /** One step keeps the invariant, and never lowers the power factor while the
      context stays RECONCILING. */
  lemma StepKeepsInv(c: Ctx, ev: Event)
    requires Inv(c) && Timely(c, ev)
    ensures Inv(Apply(c, ev))
    ensures PowerHolds(c, Apply(c, ev))
  {
    if ev.Ticked? && c.state == Reconciling {
      ReconcilingEndsAtLimit(c, ev.now);
    }
  }

  /** A run from initialisation under arbitrary events and a monotone clock. */
  ghost predicate IsRun(run: seq<Ctx>, evs: seq<Event>, total: nat)
    requires total > 0
  {
    && |run| == |evs| + 1
    && run[0] == Init(total)
    && forall i :: 0 <= i < |evs| ==> Timely(run[i], evs[i]) && run[i + 1] == Apply(run[i], evs[i])
  }

  lemma {:induction false} RunKeepsInv(run: seq<Ctx>, evs: seq<Event>, total: nat, k: nat)
    requires total > 0 && IsRun(run, evs, total) && k < |run|
    ensures Inv(run[k])
  {
    if k > 0 {
      RunKeepsInv(run, evs, total, k - 1);
      StepKeepsInv(run[k - 1], evs[k - 1]);
    }
  }

  /** While a run stays in one RECONCILING period the power factor never drops. */
  lemma {:induction false} PowerIsMonotone(run: seq<Ctx>, evs: seq<Event>, total: nat, i: nat, j: nat)
    requires total > 0 && IsRun(run, evs, total) && i <= j < |run|
    requires forall m :: i <= m <= j ==> run[m].state == Reconciling
    ensures PowerFactor(run[i]) <= PowerFactor(run[j])
    decreases j - i
  {
    if i < j {
      PowerIsMonotone(run, evs, total, i, j - 1);
      PowerStep(run, evs, total, j - 1);
    }
  }

  lemma PowerStep(run: seq<Ctx>, evs: seq<Event>, total: nat, m: nat)
    requires total > 0 && IsRun(run, evs, total) && m < |evs| && run[m].state == Reconciling && run[m + 1].state == Reconciling
    ensures PowerFactor(run[m]) <= PowerFactor(run[m + 1])
  {
    RunKeepsInv(run, evs, total, m);
    StepKeepsInv(run[m], evs[m]);
    assert PowerHolds(run[m], Apply(run[m], evs[m]));
  }

  ghost predicate EpochRises(run: seq<Ctx>, i: nat, j: nat)
    requires i <= j < |run|
  {
    forall a, b :: i <= a <= b <= j ==> run[a].epoch <= run[b].epoch
  }

  /** Over any stretch of a run the epoch never decreases, exactly when it does not
      wrap in that stretch. */
  lemma EpochRisesIff(run: seq<Ctx>, evs: seq<Event>, total: nat, i: nat, j: nat)
    requires total > 0 && IsRun(run, evs, total) && i <= j < |run|
    ensures EpochRises(run, i, j) <==> forall m :: i <= m < j ==> !Wraps(run[m], evs[m])
  {
    if forall m :: i <= m < j ==> !Wraps(run[m], evs[m]) {
      forall m | i <= m < j ensures run[m].epoch <= run[m + 1].epoch {
        EpochStep(run, evs, total, m);
      }
      forall a, b | i <= a <= b <= j ensures run[a].epoch <= run[b].epoch {
        EpochRisesTo(run, a, b);
      }
    } else {
      var m :| i <= m < j && Wraps(run[m], evs[m]);
      EpochDropsIff(run[m], evs[m]);
      assert run[m + 1].epoch < run[m].epoch;
    }
  }

  lemma {:induction false} EpochRisesTo(run: seq<Ctx>, a: nat, b: nat)
    requires a <= b < |run|
    requires forall m :: a <= m < b ==> run[m].epoch <= run[m + 1].epoch
    ensures run[a].epoch <= run[b].epoch
    decreases b - a
  {
    if a < b {
      EpochRisesTo(run, a, b - 1);
    }
  }

  lemma EpochStep(run: seq<Ctx>, evs: seq<Event>, total: nat, m: nat)
    requires total > 0 && IsRun(run, evs, total) && m < |evs| && !Wraps(run[m], evs[m])
    ensures run[m].epoch <= run[m + 1].epoch
  {
    EpochDropsIff(run[m], evs[m]);
    assert run[m + 1] == Apply(run[m], evs[m]);
  }

  /** It can wrap: a module that hears the largest epoch adopts it on rejoining, and
      the next time it is in the majority starts again from 0. */
  lemma EpochCanWrap() returns (run: seq<Ctx>, evs: seq<Event>)
    ensures IsRun(run, evs, 3) && |run| == 11
    ensures run[7].epoch == TWO32 - 1 && run[10].state == Majority && run[10].epoch == 0
  {
    evs := [EpochReceived(TWO32 - 1), Visibility(0), Ticked(0), Ticked(100000), Ticked(100001), Ticked(10100001),
            Visibility(0), Ticked(10100002), Visibility(2), Ticked(10300000)];
    var c0 := Init(3);
    var c1 := Apply(c0, evs[0]);
    var c2 := Apply(c1, evs[1]);
    var c3 := Apply(c2, evs[2]);
    var c4 := Apply(c3, evs[3]);
    var c5 := Apply(c4, evs[4]);
    var c6 := Apply(c5, evs[5]);
    var c7 := Apply(c6, evs[6]);
    var c8 := Apply(c7, evs[7]);
    var c9 := Apply(c8, evs[8]);
    var c10 := Apply(c9, evs[9]);
    run := [c0, c1, c2, c3, c4, c5, c6, c7, c8, c9, c10];
  }

  /** The context updated in place. */
  class PartitionCtx {
    var state: State
    var epoch: Word32
    var totalModules: nat
    var visibleCount: nat
    var quorumSize: nat
    var stateEnterTime: TimeUs
    var lastTick: TimeUs
    var suspectingStart: TimeUs
    var ramp: int
    var targetPower: int
    var freezeActive: bool
    var syncReceived: nat
    var syncComplete: bool
    var maxObservedEpoch: Word32

    function View(): Ctx
      reads this
    {
      Ctx(state, epoch, totalModules, visibleCount, quorumSize, stateEnterTime, lastTick, suspectingStart,
          ramp, targetPower, freezeActive, syncReceived, syncComplete, maxObservedEpoch)
    }

    constructor (total: nat)
      requires total > 0
      ensures View() == Init(total) && Inv(View())
    {
      state, epoch := Healthy, 1;
      totalModules, visibleCount, quorumSize := total, total, total / 2 + 1;
      stateEnterTime, lastTick, suspectingStart := 0, 0, 0;
      ramp, targetPower, freezeActive := FIXED_ONE, FIXED_ONE, false;
      syncReceived, syncComplete, maxObservedEpoch := 0, false, 1;
    }

    method DoTransition(to: State, now: TimeUs)
      modifies this
      ensures View() == Transition(old(View()), to, now)
    {
      if state == to { return; }
      state, stateEnterTime := to, now;
      match to {
        case Healthy => freezeActive, ramp, targetPower := false, FIXED_ONE, FIXED_ONE;
        case Suspecting => suspectingStart := now;
        case Majority =>
          epoch := (epoch + 1) % TWO32;
          freezeActive, ramp := false, FIXED_ONE;
        case Minority => freezeActive, ramp := true, 0;
        case Reconciling =>
          freezeActive, ramp, targetPower := false, 0, FIXED_ONE;
          syncReceived, syncComplete := 0, false;
      }
    }

    method DoUpdateRamp(elapsed: TimeUs)
      modifies this`ramp
      ensures View() == UpdateRamp(old(View()), elapsed)
    {
      if ramp >= targetPower {
        ramp := targetPower;
        return;
      }
      ramp := ToInt32(ramp + RampIncrement(elapsed));
      if ramp > targetPower { ramp := targetPower; }
    }

    /** The RECONCILING part of a tick. */
    method DoReconcile(elapsed: TimeUs, timeInState: TimeUs, now: TimeUs)
      modifies this
      ensures View() == Reconcile(old(View()), elapsed, timeInState, now)
    {
      DoUpdateRamp(elapsed);
      if syncComplete && ramp >= FIXED_ONE {
        if maxObservedEpoch > epoch { epoch := maxObservedEpoch; }
        DoTransition(Healthy, now);
      }
      if timeInState >= RECOVERY_MAX_US {
        syncComplete, ramp := true, FIXED_ONE;
        if maxObservedEpoch > epoch { epoch := maxObservedEpoch; }
        DoTransition(Healthy, now);
      }
    }

    method DoTick(now: TimeUs)
      modifies this
      ensures View() == Tick(old(View()), now)
    {
      var elapsed := Elapsed(now, lastTick);
      lastTick := now;
      var timeInState := Elapsed(now, stateEnterTime);
      match state {
        case Healthy =>
          if visibleCount < quorumSize { DoTransition(Suspecting, now); }
        case Suspecting =>
          if Elapsed(now, suspectingStart) >= CONFIRM_TIMEOUT_US {
            if visibleCount >= quorumSize { DoTransition(Majority, now); } else { DoTransition(Minority, now); }
          } else if visibleCount >= quorumSize {
            DoTransition(Healthy, now);
          }
        case Majority =>
          if visibleCount >= totalModules {
            DoTransition(Healthy, now);
          } else if visibleCount < quorumSize {
            DoTransition(Suspecting, now);
          }
        case Minority =>
          if maxObservedEpoch > epoch { DoTransition(Reconciling, now); }
        case Reconciling =>
          DoReconcile(elapsed, timeInState, now);
      }
    }

    method OnEpochReceived(remote: Word32)
      modifies this`maxObservedEpoch
      ensures View() == Apply(old(View()), EpochReceived(remote))
    {
      if remote > maxObservedEpoch { maxObservedEpoch := remote; }
    }

    method OnSyncReceived()
      modifies this`syncReceived, this`syncComplete
      ensures View() == Apply(old(View()), SyncReceived)
    {
      if state == Reconciling {
        syncReceived := syncReceived + 1;
        if syncReceived >= 1 { syncComplete := true; }
      }
    }
  }
}
