/**
 One slot of the coordination-field region: a sequence counter that is odd
 while its single writer is storing, and a field stored word by word.

 `Machine` interleaves the single stores of the writer, the single loads of a
 sampler (samplers only read, so one of them stands for all) and the loads and
 the store of the garbage collector, which clears the source word of a field it
 found too old, without touching the counter.
 `FieldSlot` is the slot used by one thread, updated in place. The counter is
 unbounded here.
 */
module Seqlock {
  import opened Types

  /** Six components, then timestamp, source and the low byte of the counter. */
  const FIELD_COUNT: nat := 6
  const TIMESTAMP: nat := 6
  const SOURCE: nat := 7
  const SEQUENCE: nat := 8
  const WORDS: nat := 9
  const MAX_AGE_US: nat := 500000

  type Field = f: seq<int> | |f| == WORDS && 0 <= f[TIMESTAMP] < TWO64 witness [0, 0, 0, 0, 0, 0, 0, 0, 0]

  const CLEARED: Field := [0, 0, 0, 0, 0, 0, 0, 0, 0]

  /** What a publish by `module` at `now` stores. */
  function Published(components: seq<int>, now: TimeUs, module_: ModuleId, counter: nat): Field
    requires |components| == FIELD_COUNT
  {
    components + [now, module_, counter % 256]
  }

  /** The six components in their places, then the time, the module and the low byte of the
      counter. */
  lemma PublishedReads(components: seq<int>, now: TimeUs, module_: ModuleId, counter: nat)
    requires |components| == FIELD_COUNT
    ensures var f := Published(components, now, module_, counter);
            && (forall k :: 0 <= k < 6 ==> f[k] == components[k])
            && f[6] == now && f[7] == module_ && f[8] == counter % 256
  {}

  datatype Writer = Resting | Storing(value: Field, done: nat)

  /** `tested` and `copied` are how many clearings there had been when the sampler
      tested the source word, and when it copied it. */
  datatype Sampler =
    | Waiting
    | CheckSource(before: nat, now: TimeUs)
    | CheckAge(before: nat, now: TimeUs, tested: nat)
    | Copying(before: nat, now: TimeUs, age: TimeUs, tested: nat, got: seq<int>, copied: nat)

  /** The collector at this slot: it has seen a source, and then an age past the limit. */
  datatype Collector = Elsewhere | Inspecting(now: TimeUs, maxAge: TimeUs) | Condemning

  /** A sample that returned OK, before decay is applied. */
  datatype Sample = Sample(got: seq<int>, now: TimeUs, age: TimeUs, version: nat, tested: nat, copied: nat)

  /** `versions` lists every completed publish, after the cleared slot; `clears` counts
      the clearings. */
  datatype Machine = Machine(
    counter: nat, words: Field, writer: Writer, sampler: Sampler, collector: Collector,
    versions: seq<Field>, samples: seq<Sample>, clears: nat)

  const START: Machine := Machine(0, CLEARED, Resting, Waiting, Elsewhere, [CLEARED], [], 0)

  datatype Action =
    | BeginPublish(components: seq<int>, now: TimeUs, module_: ModuleId)
    | StoreWord
    | EndPublish
    | BeginSample(now: TimeUs)
    | TestSource
    | TestAge
    | CopyWord
    | EndSample
    | Inspect(now: TimeUs, maxAge: TimeUs)
    | Judge
    | Clear

  predicate Enabled(s: Machine, a: Action) {
    match a
    case BeginPublish(c, _, m) => s.writer.Resting? && |c| == FIELD_COUNT && m != INVALID_MODULE_ID
    case StoreWord => s.writer.Storing? && s.writer.done < WORDS
    case EndPublish => s.writer.Storing? && s.writer.done == WORDS
    case BeginSample(_) => s.sampler.Waiting?
    case TestSource => s.sampler.CheckSource?
    case TestAge => s.sampler.CheckAge?
    case CopyWord => s.sampler.Copying? && |s.sampler.got| < WORDS
    case EndSample => s.sampler.Copying? && |s.sampler.got| == WORDS
    case Inspect(_, _) => s.collector.Elsewhere?
    case Judge => s.collector.Inspecting?
    case Clear => s.collector.Condemning?
  }

  function Do(s: Machine, a: Action): Machine
    requires Enabled(s, a)
  {
    match a
    case BeginPublish(c, now, m) =>
      s.(counter := s.counter + 1, writer := Storing(Published(c, now, m, s.counter + 1), 0))
    case StoreWord =>
      var Storing(value, done) := s.writer;
      s.(words := s.words[done := value[done]], writer := Storing(value, done + 1))
    case EndPublish =>
      s.(counter := s.counter + 1, writer := Resting, versions := s.versions + [s.writer.value])
    case BeginSample(now) =>
      if s.counter % 2 == 1 then s else s.(sampler := CheckSource(s.counter, now))  // odd: busy
    case TestSource =>
      if s.words[SOURCE] == INVALID_MODULE_ID then s.(sampler := Waiting)           // not found
      else s.(sampler := CheckAge(s.sampler.before, s.sampler.now, s.clears))
    case TestAge =>
      var age := Elapsed(s.sampler.now, s.words[TIMESTAMP]);
      if age > MAX_AGE_US then s.(sampler := Waiting)                               // expired
      else s.(sampler := Copying(s.sampler.before, s.sampler.now, age, s.sampler.tested, [], 0))
    case CopyWord =>
      var k := |s.sampler.got|;
      s.(sampler := s.sampler.(got := s.sampler.got + [s.words[k]], copied := if k == SOURCE then s.clears else s.sampler.copied))
    case EndSample =>
      var Copying(before, now, age, tested, got, copied) := s.sampler;
      var t := s.(sampler := Waiting);
      if s.counter != before then t                                                 // torn: busy
      else t.(samples := s.samples + [Sample(got, now, age, before / 2, tested, copied)])
    case Inspect(now, maxAge) =>
      if s.words[SOURCE] == INVALID_MODULE_ID then s else s.(collector := Inspecting(now, maxAge))
    case Judge =>
      var Inspecting(now, maxAge) := s.collector;
      s.(collector := if Elapsed(now, s.words[TIMESTAMP]) > maxAge then Condemning else Elsewhere)
    case Clear => s.(words := s.words[SOURCE := INVALID_MODULE_ID], collector := Elsewhere, clears := s.clears + 1)
  }

  /** Equal words, leaving the source aside. */
  predicate Agree(got: seq<int>, field: Field)
    requires |got| <= WORDS
  {
    forall k :: 0 <= k < |got| && k != SOURCE ==> got[k] == field[k]
  }

  /** What the source word of a field reads as, with or without a clearing after it
      was last seen set. */
  function SourceAfter(field: Field, tested: nat, clears: nat): int {
    if tested < clears then INVALID_MODULE_ID else field[SOURCE]
  }

  ghost predicate SampleOk(s: Machine, r: Sample) {
    && 0 < r.version < |s.versions| && r.tested <= r.copied
    && |r.got| == WORDS && Agree(r.got, s.versions[r.version])
    && r.got[SOURCE] == SourceAfter(s.versions[r.version], r.tested, r.copied)
    && r.age == Elapsed(r.now, s.versions[r.version][TIMESTAMP]) <= MAX_AGE_US
  }

  /** The words are the last publish, or as much of the next one as is stored, but for
      a cleared source. */
  ghost predicate WriterOk(s: Machine) {
    && s.versions != []
    && var v := |s.versions| - 1;
    match s.writer
    case Resting =>
      s.counter == 2 * v && Agree(s.words, s.versions[v]) && s.words[SOURCE] in {s.versions[v][SOURCE], INVALID_MODULE_ID}
    case Storing(value, done) =>
      && s.counter == 2 * v + 1 && done <= WORDS && value[SOURCE] != INVALID_MODULE_ID
      && Agree(s.words[..done], value)
      && (done > SOURCE ==> s.words[SOURCE] in {value[SOURCE], INVALID_MODULE_ID})
  }

  /** While the counter has not moved, what the sampler holds is the last publish, and
      the source is lost exactly by a clearing since it was tested. */
  ghost predicate SamplerOk(s: Machine) {
    && s.versions != []
    && var v := |s.versions| - 1;
    match s.sampler
    case Waiting => true
    case CheckSource(before, _) => before <= s.counter && before % 2 == 0
    case CheckAge(before, _, tested) =>
      && before <= s.counter && before % 2 == 0
      && (before == s.counter ==>
            v > 0 && tested <= s.clears && s.words[SOURCE] == SourceAfter(s.versions[v], tested, s.clears))
    case Copying(before, now, age, tested, got, copied) =>
      && before <= s.counter && before % 2 == 0 && |got| <= WORDS
      && (before == s.counter ==>
            && v > 0 && tested <= s.clears && s.words[SOURCE] == SourceAfter(s.versions[v], tested, s.clears)
            && Agree(got, s.versions[v])
            && (|got| > SOURCE ==> tested <= copied && got[SOURCE] == SourceAfter(s.versions[v], tested, copied))
            && age == Elapsed(now, s.versions[v][TIMESTAMP]) <= MAX_AGE_US)
  }

  ghost predicate VersionsOk(s: Machine) {
    && s.versions != [] && s.versions[0] == CLEARED
    && forall k :: 0 < k < |s.versions| ==> s.versions[k][SOURCE] != INVALID_MODULE_ID
  }

  ghost predicate SamplesOk(s: Machine) {
    forall k :: 0 <= k < |s.samples| ==> SampleOk(s, s.samples[k])
  }

  ghost predicate Inv(s: Machine) {
    VersionsOk(s) && WriterOk(s) && SamplerOk(s) && SamplesOk(s)
  }

  lemma StepKeepsWriter(s: Machine, a: Action)
    requires Inv(s) && Enabled(s, a)
    ensures VersionsOk(Do(s, a)) && WriterOk(Do(s, a))
  {
    if a.EndPublish? {
      assert s.words[..WORDS] == s.words;
    }
  }

  lemma StepKeepsSampler(s: Machine, a: Action)
    requires Inv(s) && Enabled(s, a)
    ensures SamplerOk(Do(s, a))
  {}

  lemma StepKeepsSamples(s: Machine, a: Action)
    requires Inv(s) && Enabled(s, a)
    ensures SamplesOk(Do(s, a))
  {
    var t := Do(s, a);
    forall k | 0 <= k < |t.samples| ensures SampleOk(t, t.samples[k]) {
      if k < |s.samples| {
        assert SampleOk(s, s.samples[k]);
      }
    }
  }

  lemma StepKeepsInv(s: Machine, a: Action)
    requires Inv(s) && Enabled(s, a)
    ensures Inv(Do(s, a))
  {
    StepKeepsWriter(s, a);
    StepKeepsSampler(s, a);
    StepKeepsSamples(s, a);
  }

  ghost predicate Path(run: seq<Machine>, acts: seq<Action>) {
    && |run| == |acts| + 1
    && forall k :: 0 <= k < |acts| ==> Enabled(run[k], acts[k]) && run[k + 1] == Do(run[k], acts[k])
  }

  ghost predicate IsRun(run: seq<Machine>, acts: seq<Action>) {
    Path(run, acts) && run[0] == START
  }

  lemma {:induction false} RunKeepsInv(run: seq<Machine>, acts: seq<Action>, k: nat)
    requires IsRun(run, acts) && k < |run|
    ensures Inv(run[k])
  {
    if k > 0 {
      RunKeepsInv(run, acts, k - 1);
      StepKeepsInv(run[k - 1], acts[k - 1]);
    }
  }

  /** No torn reads: all words of a sample that returned OK but the source come from one
      publish, and the age it will be decayed by is the age of that publish. The source
      is lost exactly when the collector cleared it between the sampler's test of it
      and its copy. */
  lemma NoTornReads(run: seq<Machine>, acts: seq<Action>, k: nat, i: nat)
    requires IsRun(run, acts) && k < |run| && i < |run[k].samples|
    ensures var r := run[k].samples[i];
            && 0 < r.version < |run[k].versions| && |r.got| == WORDS
            && var field := run[k].versions[r.version];
            && (forall w :: 0 <= w < WORDS && w != SOURCE ==> r.got[w] == field[w])
            && r.age == Elapsed(r.now, field[TIMESTAMP]) <= MAX_AGE_US
            && (r.got[SOURCE] != field[SOURCE] <==> r.tested < r.copied)
            && (r.tested < r.copied ==> r.got[SOURCE] == INVALID_MODULE_ID)
  {
    RunKeepsInv(run, acts, k);
    assert SampleOk(run[k], run[k].samples[i]);
  }

  function ClearsIn(acts: seq<Action>): nat {
    if acts == [] then 0 else ClearsIn(acts[..|acts| - 1]) + if acts[|acts| - 1].Clear? then 1 else 0
  }

  /** The machine counts the clearings of the run, so that `tested` and `copied` are
      positions in it. */
  lemma {:induction false} ClearsAreCounted(run: seq<Machine>, acts: seq<Action>, k: nat)
    requires IsRun(run, acts) && k < |run|
    ensures run[k].clears == ClearsIn(acts[..k])
  {
    if k > 0 {
      ClearsAreCounted(run, acts, k - 1);
      assert acts[..k][..k - 1] == acts[..k - 1];
    }
  }

  lemma {:induction false} ClearsBetween(acts: seq<Action>, p: nat, q: nat)
    requires p <= q <= |acts|
    ensures ClearsIn(acts[..p]) <= ClearsIn(acts[..q])
    ensures ClearsIn(acts[..p]) < ClearsIn(acts[..q]) <==> exists m :: p <= m < q && acts[m].Clear?
    decreases q - p
  {
    if p < q {
      ClearsBetween(acts, p, q - 1);
      assert acts[..q][..q - 1] == acts[..q - 1];
      if acts[q - 1].Clear? { assert p <= q - 1 < q; }
    }
  }

  predicate Tested(s: Machine) {
    s.sampler.CheckAge? || s.sampler.Copying?
  }

  /** A sampler past its test of the source made that test at step p, and copied the
      source, if it has, at step q. */
  lemma {:induction false} SamplerSince(run: seq<Machine>, acts: seq<Action>, k: nat) returns (p: nat, q: nat)
    requires IsRun(run, acts) && k < |run| && Tested(run[k])
    ensures p < k && acts[p] == TestSource && run[p].clears == run[k].sampler.tested
    ensures forall m :: p < m <= k ==> Tested(run[m])
    ensures run[k].sampler.Copying? && |run[k].sampler.got| > SOURCE ==>
              && p < q < k && acts[q] == CopyWord && |run[q].sampler.got| == SOURCE
              && run[q].clears == run[k].sampler.copied
  {
    q := k - 1;
    if acts[k - 1] == TestSource {
      p := k - 1;
    } else {
      var q0;
      p, q0 := SamplerSince(run, acts, k - 1);
      if !(acts[k - 1] == CopyWord && |run[k - 1].sampler.got| == SOURCE) { q := q0; }
    }
  }

  /** A sample that ends well at step k has lost its source exactly when the collector
      cleared it after step p, where this sampler tested it, and before step q, where
      it copied it. */
  lemma SourceLostIff(run: seq<Machine>, acts: seq<Action>, k: nat) returns (p: nat, q: nat)
    requires IsRun(run, acts) && k < |acts| && acts[k] == EndSample && run[k + 1].samples != run[k].samples
    ensures p < q < k && acts[p] == TestSource && acts[q] == CopyWord
    ensures (forall m :: p < m <= k ==> Tested(run[m])) && |run[q].sampler.got| == SOURCE
    ensures var r := run[k + 1].samples[|run[k].samples|];
            && r.version < |run[k + 1].versions| && |r.got| == WORDS
            && (r.got[SOURCE] != run[k + 1].versions[r.version][SOURCE] <==> exists m :: p <= m < q && acts[m].Clear?)
  {
    p, q := SamplerSince(run, acts, k);
    NoTornReads(run, acts, k + 1, |run[k].samples|);
    ClearsAreCounted(run, acts, p);
    ClearsAreCounted(run, acts, q);
    ClearsBetween(acts, p, q);
  }

  /** So where nothing is cleared, an OK sample is word for word one publish. */
  lemma {:induction false} WholeWithoutCollector(run: seq<Machine>, acts: seq<Action>, k: nat, i: nat)
    requires IsRun(run, acts) && Clear !in acts && k < |run| && i < |run[k].samples|
    ensures var r := run[k].samples[i]; 0 < r.version < |run[k].versions| && r.got == run[k].versions[r.version]
  {
    NoTornReads(run, acts, k, i);
    NeverCleared(run, acts, k);
    assert run[k].samples[i].copied == 0;
  }

  lemma {:induction false} NeverCleared(run: seq<Machine>, acts: seq<Action>, k: nat)
    requires IsRun(run, acts) && Clear !in acts && k < |run|
    ensures run[k].clears == 0 && (run[k].sampler.Copying? ==> run[k].sampler.copied == 0)
    ensures forall i :: 0 <= i < |run[k].samples| ==> run[k].samples[i].copied == 0
  {
    if k > 0 { NeverCleared(run, acts, k - 1); }
  }

  // ------------------------------------------------------ a source that is lost

  /** When an action reads the clock, and what it reads. */
  function TimeOf(a: Action): Option<TimeUs> {
    match a
    case BeginPublish(_, now, _) => Some(now)
    case BeginSample(now) => Some(now)
    case Inspect(now, _) => Some(now)
    case _ => None
  }

  /** What every clock reading in the actions satisfies. */
  ghost predicate ReadBy(a: Action, now: TimeUs) {
    TimeOf(a).Some? ==> TimeOf(a).value <= now
  }

  /** One clock that does not go back. */
  ghost predicate Timely(acts: seq<Action>) {
    forall j, k :: 0 <= j < k < |acts| && TimeOf(acts[k]).Some? ==> ReadBy(acts[j], TimeOf(acts[k]).value)
  }

  datatype Trace = Trace(run: seq<Machine>, acts: seq<Action>)

  /** A run that ends in s, the clock at `now`, with no other age limit than the sampler's. */
  ghost predicate Reaches(t: Trace, s: Machine, now: TimeUs) {
    && IsRun(t.run, t.acts) && t.run[|t.acts|] == s && Timely(t.acts)
    && (forall k :: 0 <= k < |t.acts| ==> ReadBy(t.acts[k], now))
    && forall k :: 0 <= k < |t.acts| && t.acts[k].Inspect? ==> t.acts[k].maxAge == MAX_AGE_US
  }

  lemma Then(t: Trace, s: Machine, now: TimeUs, a: Action) returns (t': Trace)
    requires Reaches(t, s, now) && Enabled(s, a)
    requires (TimeOf(a).Some? ==> now <= TimeOf(a).value) && (a.Inspect? ==> a.maxAge == MAX_AGE_US)
    ensures Reaches(t', Do(s, a), if TimeOf(a).Some? then TimeOf(a).value else now)
  {
    t' := Trace(t.run + [Do(s, a)], t.acts + [a]);
    assert t'.acts[..|t.acts|] == t.acts;
    forall k | 0 <= k < |t'.acts| ensures Enabled(t'.run[k], t'.acts[k]) && t'.run[k + 1] == Do(t'.run[k], t'.acts[k]) {
      if k < |t.acts| {
        assert t'.run[k] == t.run[k] && t'.run[k + 1] == t.run[k + 1];
      }
    }
  }

  /** While a publish is being stored, its first i words are there. */
  predicate Half(s: Machine, value: Field, i: nat) {
    i <= WORDS && s.writer == Storing(value, i) && s.words[..i] == value[..i]
  }

  lemma {:induction false} StoreRest(t: Trace, s: Machine, now: TimeUs, value: Field, i: nat) returns (t': Trace)
    requires Reaches(t, s, now) && Half(s, value, i)
    ensures Reaches(t', s.(words := value, writer := Storing(value, WORDS)), now)
    decreases WORDS - i
  {
    if i == WORDS {
      assert s.words[..WORDS] == s.words && value[..WORDS] == value;
      t' := t;
    } else {
      var t1 := Then(t, s, now, StoreWord);
      OneMore(s, value, i);
      t' := StoreRest(t1, Do(s, StoreWord), now, value, i + 1);
    }
  }

  lemma OneMore(s: Machine, value: Field, i: nat)
    requires Half(s, value, i) && i < WORDS
    ensures Half(Do(s, StoreWord), value, i + 1)
    ensures Do(s, StoreWord).(words := value, writer := Storing(value, WORDS)) == s.(words := value, writer := Storing(value, WORDS))
  {
    assert s.words[i := value[i]][..i + 1] == s.words[..i] + [value[i]] == value[..i + 1];
  }

  /** An undisturbed publish, from any state in which none is under way: it ends with its
      field stored, the counter two further, and nothing else changed. */
  lemma PublishAlone(t: Trace, s: Machine, now: TimeUs, components: seq<int>, at: TimeUs, module_: ModuleId) returns (t': Trace)
    requires Reaches(t, s, now) && s.writer.Resting? && now <= at
    requires |components| == FIELD_COUNT && module_ != INVALID_MODULE_ID
    ensures var v := Published(components, at, module_, s.counter + 1);
            Reaches(t', s.(counter := s.counter + 2, words := v, versions := s.versions + [v]), at)
  {
    var v := Published(components, at, module_, s.counter + 1);
    t' := Then(t, s, now, BeginPublish(components, at, module_));
    var s1 := s.(counter := s.counter + 1, writer := Storing(v, 0));
    t' := StoreRest(t', s1, at, v, 0);
    t' := Then(t', s1.(words := v, writer := Storing(v, WORDS)), at, EndPublish);
  }

  /** A sample gets as far as copying. */
  lemma GetsToCopy(t: Trace, s: Machine, now: TimeUs, at: TimeUs) returns (t': Trace)
    requires Reaches(t, s, now) && s.sampler.Waiting? && now <= at && s.counter % 2 == 0
    requires s.words[SOURCE] != INVALID_MODULE_ID && Elapsed(at, s.words[TIMESTAMP]) <= MAX_AGE_US
    ensures Reaches(t', s.(sampler := Copying(s.counter, at, Elapsed(at, s.words[TIMESTAMP]), s.clears, [], 0)), at)
  {
    t' := Then(t, s, now, BeginSample(at));
    t' := Then(t', s.(sampler := CheckSource(s.counter, at)), at, TestSource);
    t' := Then(t', s.(sampler := CheckAge(s.counter, at, s.clears)), at, TestAge);
  }

  /** What a sample taken at once makes of the words there are. */
  function Sampled(s: Machine, at: TimeUs): Machine {
    var age := Elapsed(at, s.words[6]);
    if s.counter % 2 == 1 || s.words[7] == 0 || age > 500000 then s
    else s.(samples := s.samples + [Sample(s.words, at, age, s.counter / 2, s.clears, s.clears)])
  }

  /** An undisturbed sample: busy while a publish is under way, not found without a source,
      expired when older than half a second, and else all nine words with their age. */
  lemma SampleAlone(t: Trace, s: Machine, now: TimeUs, at: TimeUs) returns (t': Trace)
    requires Reaches(t, s, now) && s.sampler.Waiting? && now <= at
    ensures Reaches(t', Sampled(s, at), at)
  {
    var age := Elapsed(at, s.words[TIMESTAMP]);
    if s.counter % 2 == 0 && s.words[SOURCE] != INVALID_MODULE_ID && age <= MAX_AGE_US {
      t' := GetsToCopy(t, s, now, at);
      t' := CopyRest(t', s.(sampler := Copying(s.counter, at, age, s.clears, [], 0)), at);
      assert [] + s.words[0..] == s.words;
      t' := Then(t', s.(sampler := Copying(s.counter, at, age, s.clears, s.words, s.clears)), at, EndSample);
    } else {
      t' := Then(t, s, now, BeginSample(at));
      if s.counter % 2 == 0 {
        t' := Then(t', s.(sampler := CheckSource(s.counter, at)), at, TestSource);
        if s.words[SOURCE] != INVALID_MODULE_ID {
          t' := Then(t', s.(sampler := CheckAge(s.counter, at, s.clears)), at, TestAge);
        }
      }
    }
    assert s.(sampler := Waiting) == s;
  }

  /** An undisturbed collection clears the source of a field older than its limit, and does
      nothing else. */
  lemma CollectAlone(t: Trace, s: Machine, now: TimeUs, at: TimeUs) returns (t': Trace)
    requires Reaches(t, s, now) && s.collector.Elsewhere? && now <= at
    ensures Reaches(t', if s.words[7] == 0 || Elapsed(at, s.words[6]) <= 500000 then s
                        else s.(words := s.words[7 := 0], clears := s.clears + 1), at)
  {
    t' := Then(t, s, now, Inspect(at, MAX_AGE_US));
    if s.words[SOURCE] != INVALID_MODULE_ID {
      t' := Then(t', s.(collector := Inspecting(at, MAX_AGE_US)), at, Judge);
      if Elapsed(at, s.words[TIMESTAMP]) > MAX_AGE_US {
        t' := Then(t', s.(collector := Condemning), at, Clear);
      }
    }
    assert s.(collector := Elsewhere) == s;
  }

  lemma {:induction false} CopyRest(t: Trace, s: Machine, now: TimeUs) returns (t': Trace)
    requires Reaches(t, s, now) && s.sampler.Copying? && |s.sampler.got| <= WORDS
    ensures Reaches(t', Copied(s), now)
    decreases WORDS - if s.sampler.Copying? then |s.sampler.got| else 0
  {
    var k := |s.sampler.got|;
    if k == WORDS {
      assert s.sampler.got + s.words[WORDS..] == s.sampler.got;
      t' := t;
    } else {
      var t1 := Then(t, s, now, CopyWord);
      CopiedNext(s);
      t' := CopyRest(t1, Do(s, CopyWord), now);
    }
  }

  /** With all words that are left copied. */
  function Copied(s: Machine): Machine
    requires s.sampler.Copying? && |s.sampler.got| <= WORDS
  {
    var p := s.sampler;
    s.(sampler := p.(got := p.got + s.words[|p.got|..], copied := if |p.got| <= SOURCE then s.clears else p.copied))
  }

  lemma CopiedNext(s: Machine)
    requires s.sampler.Copying? && |s.sampler.got| < WORDS
    ensures Copied(Do(s, CopyWord)) == Copied(s)
  {
    var k := |s.sampler.got|;
    assert s.sampler.got + [s.words[k]] + s.words[k + 1..] == s.sampler.got + s.words[k..];
  }

  /** It does happen, with the sampler's own age limit as the collector's: a field that
      is just young enough for the sampler has expired a little later. */
  lemma SourceCanBeLost() returns (t: Trace)
    ensures IsRun(t.run, t.acts) && Timely(t.acts)
    ensures forall k :: 0 <= k < |t.acts| && t.acts[k].Inspect? ==> t.acts[k].maxAge == MAX_AGE_US
    ensures var s := t.run[|t.acts|];
            && |s.versions| == 2 && s.versions[1][SOURCE] == 7
            && |s.samples| == 1 && |s.samples[0].got| == WORDS && s.samples[0].got[SOURCE] == INVALID_MODULE_ID
  {
    t := PublishAlone(Trace([START], []), START, 0, [0, 0, 0, 0, 0, 0], 5, 7);
    var v := Published([0, 0, 0, 0, 0, 0], 5, 7, 1);
    var s := Machine(2, v, Resting, Waiting, Elsewhere, [CLEARED, v], [], 0);
    t := GetsToCopy(t, s, 5, 500000);
    s := s.(sampler := Copying(2, 500000, 499995, 0, [], 0));
    t := CollectAlone(t, s, 500000, 500006);
    s := s.(words := s.words[SOURCE := INVALID_MODULE_ID], clears := 1);
    t := CopyRest(t, s, 500006);
    s := s.(sampler := Copying(2, 500000, 499995, 0, s.words, 1));
    assert [] + s.words[0..] == s.words;
    t := Then(t, s, 500006, EndSample);
  }

  // ------------------------------------------------------------- one thread

  datatype Status = Ok | Busy | NotFound | Expired

  class FieldSlot {
    const words: array<int>
    var counter: nat

    ghost predicate Valid()
      reads this, words
    {
      words.Length == WORDS && 0 <= words[TIMESTAMP] < TWO64
    }

    constructor ()
      ensures Valid() && fresh(words) && words[..] == CLEARED && counter == 0
    {
      counter := 0;
      words := new int[WORDS](_ => 0);
    }

    /** A publish moves the counter from even to even and stores the whole field. */
    method Publish(components: seq<int>, now: TimeUs, module_: ModuleId)
      requires Valid() && |components| == FIELD_COUNT && module_ != INVALID_MODULE_ID
      modifies this, words
      ensures Valid() && counter == old(counter) + 2
      ensures words[..] == Published(components, now, module_, old(counter) + 1)
    {
      counter := counter + 1;
      for i := 0 to FIELD_COUNT
        modifies words
        invariant words[..i] == components[..i]
      {
        words[i] := components[i];
      }
      words[TIMESTAMP] := now;
      words[SOURCE] := module_;
      words[SEQUENCE] := counter % 256;
      counter := counter + 1;
      assert words[..FIELD_COUNT] == components[..FIELD_COUNT];
    }

    /** The four outcomes of a sample, and what an OK sample returns before decay. */
    method SampleSlot(now: TimeUs) returns (status: Status, got: seq<int>, age: TimeUs)
      requires Valid()
      ensures status == Busy <==> counter % 2 == 1
      ensures status == NotFound <==> counter % 2 == 0 && words[SOURCE] == INVALID_MODULE_ID
      ensures status == Expired <==> counter % 2 == 0 && words[SOURCE] != INVALID_MODULE_ID && Elapsed(now, words[TIMESTAMP]) > MAX_AGE_US
      ensures status == Ok ==> got == words[..] && age == Elapsed(now, words[TIMESTAMP]) <= MAX_AGE_US
    {
      got, age := [], 0;
      var before := counter;
      if before % 2 == 1 { return Busy, got, age; }
      if words[SOURCE] == INVALID_MODULE_ID { return NotFound, got, age; }
      age := Elapsed(now, words[TIMESTAMP]);
      if age > MAX_AGE_US { return Expired, got, age; }
      got := words[..];
      if counter != before { return Busy, got, age; }
      return Ok, got, age;
    }

    /** Clears the source of a field older than the limit, and nothing else. */
    method CollectSlot(now: TimeUs, maxAge: TimeUs) returns (expired: bool)
      requires Valid()
      modifies words
      ensures Valid()
      ensures expired <==> old(words[SOURCE]) != INVALID_MODULE_ID && Elapsed(now, old(words[TIMESTAMP])) > maxAge
      ensures words[..] == if expired then old(words[..])[SOURCE := INVALID_MODULE_ID] else old(words[..])
    {
      if words[SOURCE] == INVALID_MODULE_ID { return false; }
      var age := Elapsed(now, words[TIMESTAMP]);
      if age > maxAge {
        words[SOURCE] := INVALID_MODULE_ID;
        return true;
      }
      return false;
    }
  }
}
