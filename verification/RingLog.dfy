/**
 The record rings of the event log and the time series, and the iterators that
 read them: a header with head, tail and count over a fixed number of slots.

 `Ring` is the value; `RingFile` updates slots and header in place. The first part
 holds for both rings, for any kind of record; `EventLog` and `TimeSeries` add
 what is stamped on a record and which records a query takes.
 */
module Rings {
  import opened Types

  datatype Ring<T> = Ring(slots: seq<T>, head: nat, tail: nat, count: nat)

  /** The i-th slot from `start`, around the ring. */
  function Slot(start: nat, i: nat, max: nat): (r: nat)
    requires start < max && i <= max
    ensures r < max
  {
    if start + i < max then start + i else start + i - max
  }

  function Next(i: nat, max: nat): (r: nat)
    requires i < max
    ensures r < max && r == Slot(i, 1, max)
  {
    (i + 1) % max
  }

  ghost predicate Valid<T>(r: Ring<T>) {
    && r.slots != [] && r.tail < |r.slots| && r.count <= |r.slots|
    && r.head == Slot(r.tail, r.count, |r.slots|)
  }

  /** The records held, oldest first. */
  ghost function Items<T>(r: Ring<T>): (s: seq<T>)
    requires Valid(r)
    ensures |s| == r.count
  {
    seq(r.count, i requires 0 <= i < r.count => r.slots[Slot(r.tail, i, |r.slots|)])
  }

  function Append<T>(r: Ring<T>, x: T): Ring<T>
    requires r.head < |r.slots| && r.tail < |r.slots|
  {
    var max := |r.slots|;
    Ring(r.slots[r.head := x], Next(r.head, max),
         if r.count >= max then Next(r.tail, max) else r.tail,
         if r.count >= max then r.count else r.count + 1)
  }

  /** Appending adds at the end, and pushes the oldest out of a full ring. */
  lemma AppendAdds<T>(r: Ring<T>, x: T)
    requires Valid(r)
    ensures Valid(Append(r, x))
    ensures Items(Append(r, x)) == (if r.count < |r.slots| then Items(r) else Items(r)[1..]) + [x]
  {
    var r', max := Append(r, x), |r.slots|;
    var kept := if r.count < max then Items(r) else Items(r)[1..];
    forall i | 0 <= i < |Items(r')| ensures Items(r')[i] == (kept + [x])[i] {
      assert Slot(r'.tail, i, max) == Slot(r.tail, if r.count < max then i else i + 1, max);
    }
  }

  function AppendAll<T>(r: Ring<T>, xs: seq<T>): Ring<T>
    requires Valid(r)
    ensures Valid(AppendAll(r, xs)) && |AppendAll(r, xs).slots| == |r.slots|
    decreases |xs|
  {
    if xs == [] then r else
    var front := AppendAll(r, xs[..|xs| - 1]);
    AppendAdds(front, xs[|xs| - 1]);
    Append(front, xs[|xs| - 1])
  }

  function Empty<T>(slots: seq<T>): (r: Ring<T>)
    requires slots != []
    ensures Valid(r)
  {
    Ring(slots, 0, 0, 0)
  }

  function Last<T>(xs: seq<T>, n: nat): (r: seq<T>)
    ensures |r| == if |xs| <= n then |xs| else n
  {
    if |xs| <= n then xs else xs[|xs| - n..]
  }

  /** From empty, after any appends, the ring holds the last of them in order, as
      many as it has slots. */
  lemma {:induction false} HoldsTheLast<T>(slots: seq<T>, xs: seq<T>)
    requires slots != []
    ensures Items(AppendAll(Empty(slots), xs)) == Last(xs, |slots|)
    decreases |xs|
  {
    if xs != [] {
      var front, x := xs[..|xs| - 1], xs[|xs| - 1];
      var r := AppendAll(Empty(slots), front);
      HoldsTheLast(slots, front);
      AppendKeepsLast(r, front, x);
      assert xs == front + [x];
    }
  }

  lemma AppendKeepsLast<T>(r: Ring<T>, xs: seq<T>, x: T)
    requires Valid(r) && Items(r) == Last(xs, |r.slots|)
    ensures Valid(Append(r, x)) && Items(Append(r, x)) == Last(xs + [x], |r.slots|)
  {
    AppendAdds(r, x);
    assert r.count == |Last(xs, |r.slots|)|;
    LastOfMore(xs, x, |r.slots|);
  }

  lemma LastOfMore<T>(xs: seq<T>, x: T, n: nat)
    requires n > 0
    ensures Last(xs + [x], n) == (if |Last(xs, n)| < n then Last(xs, n) else Last(xs, n)[1..]) + [x]
  {}

  // --------------------------------------------------------------- iterators

  datatype Iter = Iter(current: nat, returned: nat)

  function Start<T>(r: Ring<T>): Iter {
    Iter(r.tail, 0)
  }

  /** The next record taken, passing over others until there are no more or one
      says to stop. */
  function Fetch<T>(r: Ring<T>, it: Iter, takes: T -> bool, stops: T -> bool): (f: (Iter, Option<T>))
    requires it.current < |r.slots|
    ensures f.0.current < |r.slots|
    ensures f.1.Some? ==> it.returned < f.0.returned <= r.count
    decreases r.count - it.returned
  {
    if it.returned >= r.count then (it, None) else
    var x := r.slots[it.current];
    var next := Iter(Next(it.current, |r.slots|), it.returned + 1);
    if takes(x) then (next, Some(x))
    else if stops(x) then (next, None)
    else Fetch(r, next, takes, stops)
  }

  /** How many records a query says there are. */
  function Matching<T>(xs: seq<T>, takes: T -> bool): seq<T> {
    if xs == [] then [] else (if takes(xs[0]) then [xs[0]] else []) + Matching(xs[1..], takes)
  }

  /** The records taken before one says to stop. */
  function Taken<T>(xs: seq<T>, takes: T -> bool, stops: T -> bool): seq<T> {
    if xs == [] then []
    else if takes(xs[0]) then [xs[0]] + Taken(xs[1..], takes, stops)
    else if stops(xs[0]) then []
    else Taken(xs[1..], takes, stops)
  }

  ghost predicate InPlace<T>(r: Ring<T>, it: Iter)
    requires Valid(r)
  {
    it.returned <= r.count && it.current == Slot(r.tail, it.returned, |r.slots|)
  }

  lemma {:induction false} FetchTakesOne<T>(r: Ring<T>, it: Iter, takes: T -> bool, stops: T -> bool)
    requires Valid(r) && InPlace(r, it)
    ensures var (it', x), rest := Fetch(r, it, takes, stops), Taken(Items(r)[it.returned..], takes, stops);
            && InPlace(r, it')
            && (x == None <==> rest == [])
            && (x.Some? ==> rest == [x.value] + Taken(Items(r)[it'.returned..], takes, stops))
    decreases r.count - it.returned
  {
    if it.returned < r.count {
      var xs := Items(r)[it.returned..];
      assert xs[0] == r.slots[it.current] && xs[1..] == Items(r)[it.returned + 1..];
      var next := Iter(Next(it.current, |r.slots|), it.returned + 1);
      if !takes(xs[0]) && !stops(xs[0]) { FetchTakesOne(r, next, takes, stops); }
    }
  }

  /** Fetching until there is nothing more. */
  function Drain<T>(r: Ring<T>, it: Iter, takes: T -> bool, stops: T -> bool): seq<T>
    requires it.current < |r.slots|
    decreases r.count - it.returned
  {
    var (it', x) := Fetch(r, it, takes, stops);
    if x == None then [] else [x.value] + Drain(r, it', takes, stops)
  }

  lemma {:induction false} DrainFrom<T>(r: Ring<T>, it: Iter, takes: T -> bool, stops: T -> bool)
    requires Valid(r) && InPlace(r, it)
    ensures Drain(r, it, takes, stops) == Taken(Items(r)[it.returned..], takes, stops)
    decreases r.count - it.returned
  {
    FetchTakesOne(r, it, takes, stops);
    var (it', x) := Fetch(r, it, takes, stops);
    if x.Some? { DrainFrom(r, it', takes, stops); }
  }

  /** With no writes in between, fetching from a new iterator gives the records in
      order that are taken before one says to stop. */
  lemma DrainIsTaken<T>(r: Ring<T>, takes: T -> bool, stops: T -> bool)
    requires Valid(r)
    ensures Drain(r, Start(r), takes, stops) == Taken(Items(r), takes, stops)
  {
    assert Items(r)[0..] == Items(r);
    DrainFrom(r, Start(r), takes, stops);
  }

  /** No record to take comes after one that says to stop. */
  ghost predicate NoneLate<T>(xs: seq<T>, takes: T -> bool, stops: T -> bool) {
    forall i, j :: 0 <= i < j < |xs| && stops(xs[i]) ==> !takes(xs[j])
  }

  lemma {:induction false} MatchingEmpty<T>(xs: seq<T>, takes: T -> bool)
    ensures Matching(xs, takes) == [] <==> forall i :: 0 <= i < |xs| ==> !takes(xs[i])
  {
    if xs != [] {
      MatchingEmpty(xs[1..], takes);
      assert forall i :: 1 <= i < |xs| ==> xs[i] == xs[1..][i - 1];
      assert forall i :: 0 <= i < |xs| - 1 ==> xs[1..][i] == xs[i + 1];
    }
  }

  /** All matching records are taken, as many as were counted, exactly when none
      comes late. */
  lemma {:induction false} TakenIsMatching<T>(xs: seq<T>, takes: T -> bool, stops: T -> bool)
    requires forall x :: !(takes(x) && stops(x))
    ensures NoneLate(xs, takes, stops) <==> Taken(xs, takes, stops) == Matching(xs, takes)
    ensures NoneLate(xs, takes, stops) <==> |Taken(xs, takes, stops)| == |Matching(xs, takes)|
    ensures |Taken(xs, takes, stops)| <= |Matching(xs, takes)|
  {
    if xs != [] {
      TakenIsMatching(xs[1..], takes, stops);
      MatchingEmpty(xs[1..], takes);
      LateInTail(xs, takes, stops);
    }
  }

  lemma LateInTail<T>(xs: seq<T>, takes: T -> bool, stops: T -> bool)
    requires xs != []
    ensures NoneLate(xs, takes, stops) <==>
              NoneLate(xs[1..], takes, stops) && (stops(xs[0]) ==> forall j :: 0 <= j < |xs[1..]| ==> !takes(xs[1..][j]))
  {
    var tail := xs[1..];
    assert forall i :: 1 <= i < |xs| ==> xs[i] == tail[i - 1];
    assert forall i :: 0 <= i < |tail| ==> tail[i] == xs[i + 1];
  }

  lemma MatchingNext<T>(xs: seq<T>, i: nat, takes: T -> bool)
    requires i < |xs|
    ensures |Matching(xs[i..], takes)| == (if takes(xs[i]) then 1 else 0) + |Matching(xs[i + 1..], takes)|
  {
    assert xs[i..][1..] == xs[i + 1..];
  }

  // ---------------------------------------------------------------- in place

  class Cursor {
    var current: nat
    var returned: nat

    function View(): Iter reads this {
      Iter(current, returned)
    }

    constructor (current: nat)
      ensures View() == Iter(current, 0)
    {
      this.current, this.returned := current, 0;
    }
  }

  class RingFile<T(0)> {
    const slots: array<T>
    var head: nat
    var tail: nat
    var count: nat

    ghost function View(): Ring<T> reads this, slots {
      Ring(slots[..], head, tail, count)
    }

    ghost predicate Ok() reads this, slots {
      Valid(View())
    }

    constructor (max: nat)
      requires max > 0
      ensures Ok() && fresh(slots) && View() == Empty(slots[..]) && slots.Length == max
    {
      slots := new T[max];
      head, tail, count := 0, 0, 0;
    }

    method Add(x: T)
      requires Ok()
      modifies this, slots
      ensures Ok() && View() == Append(old(View()), x)
    {
      AppendAdds(View(), x);
      slots[head] := x;
      if count >= slots.Length {
        tail := Next(tail, slots.Length);
      } else {
        count := count + 1;
      }
      head := Next(head, slots.Length);
    }

    /** The query loop: how many records match. */
    method CountMatching(takes: T -> bool) returns (n: nat)
      requires Ok()
      ensures n == |Matching(Items(View()), takes)|
    {
      n := 0;
      var idx := tail;
      ghost var xs := Items(View());
      ghost var all := |Matching(xs, takes)|;
      assert xs[0..] == xs;
      for i := 0 to count
        invariant idx == Slot(tail, i, slots.Length)
        invariant n + |Matching(xs[i..], takes)| == all
      {
        MatchingNext(xs, i, takes);
        assert xs[i] == slots[idx];
        if takes(slots[idx]) { n := n + 1; }
        idx := Next(idx, slots.Length);
      }
    }

    /** The next loop. */
    method FetchNext(it: Cursor, takes: T -> bool, stops: T -> bool) returns (x: Option<T>)
      requires Ok() && it.current < slots.Length
      modifies it
      ensures (it.View(), x) == Fetch(View(), old(it.View()), takes, stops)
    {
      while it.returned < count
        invariant it.current < slots.Length
        invariant Fetch(View(), it.View(), takes, stops) == Fetch(View(), old(it.View()), takes, stops)
        decreases count - it.returned
      {
        var y := slots[it.current];
        it.current := Next(it.current, slots.Length);
        it.returned := it.returned + 1;
        if takes(y) { return Some(y); }
        if stops(y) { break; }
      }
      return None;
    }
  }
}

/** The event log: sequence numbers, checksums and filters over a ring. */
module EventLogs {
  import opened Rings

  const ANY: nat := 255

  datatype Event = Event(
    timestamp: nat, sequence: nat, severity: nat, sourceType: nat, sourceId: nat, body: seq<bv8>, crc: bv32)

  /** The checksum over everything but the checksum. */
  type Checksum = Event -> bv32

  datatype Filter = Filter(startUs: nat, endUs: nat, minSeverity: nat, sourceType: nat, sourceId: nat)

  predicate Matches(f: Filter, e: Event) {
    && !(f.startUs > 0 && e.timestamp < f.startUs)
    && !(f.endUs > 0 && e.timestamp > f.endUs)
    && !(e.severity < f.minSeverity)
    && !(f.sourceType != ANY && e.sourceType != f.sourceType)
    && !(f.sourceId != ANY && e.sourceId != f.sourceId)
  }

  /** Of each criterion, one that is not given lets every event through. */
  lemma MatchesMeans(f: Filter, e: Event)
    ensures Matches(f, e) <==>
            && (f.startUs == 0 || f.startUs <= e.timestamp) && (f.endUs == 0 || e.timestamp <= f.endUs)
            && f.minSeverity <= e.severity
            && (f.sourceType == 255 || f.sourceType == e.sourceType) && (f.sourceId == 255 || f.sourceId == e.sourceId)
  {}

  function Unsigned(e: Event): Event {
    e.(crc := 0)
  }

  predicate CrcOk(sum: Checksum, e: Event) {
    e.crc == sum(Unsigned(e))
  }

  /** A missing timestamp is filled in; number and checksum are always set. */
  function Stamped(sum: Checksum, e: Event, sequence: nat, now: nat): Event {
    var e1 := e.(timestamp := if e.timestamp == 0 then now else e.timestamp, sequence := sequence);
    e1.(crc := sum(Unsigned(e1)))
  }

  datatype Log = Log(ring: Ring<Event>, nextSequence: nat)

  datatype Write = Write(event: Event, now: nat)

  function Apply(sum: Checksum, l: Log, w: Write): Log
    requires l.ring.head < |l.ring.slots| && l.ring.tail < |l.ring.slots|
  {
    Log(Append(l.ring, Stamped(sum, w.event, l.nextSequence, w.now)), l.nextSequence + 1)
  }

  function Open(slots: seq<Event>): Log
    requires slots != []
  {
    Log(Empty(slots), 1)
  }

  function Written(sum: Checksum, slots: seq<Event>, ws: seq<Write>): (l: Log)
    requires slots != []
    ensures Valid(l.ring) && |l.ring.slots| == |slots|
  {
    if ws == [] then Open(slots) else
    var front := Written(sum, slots, ws[..|ws| - 1]);
    AppendAdds(front.ring, Stamped(sum, ws[|ws| - 1].event, front.nextSequence, ws[|ws| - 1].now));
    Apply(sum, front, ws[|ws| - 1])
  }

  /** All writes, as they were stamped. */
  function History(sum: Checksum, ws: seq<Write>): (h: seq<Event>)
    ensures |h| == |ws|
    ensures forall k :: 0 <= k < |ws| ==> h[k] == Stamped(sum, ws[k].event, k + 1, ws[k].now)
  {
    if ws == [] then [] else
    History(sum, ws[..|ws| - 1]) + [Stamped(sum, ws[|ws| - 1].event, |ws|, ws[|ws| - 1].now)]
  }

  lemma {:induction false} WrittenIsHistory(sum: Checksum, slots: seq<Event>, ws: seq<Write>)
    requires slots != []
    ensures Written(sum, slots, ws).ring == AppendAll(Empty(slots), History(sum, ws))
    ensures Written(sum, slots, ws).nextSequence == |ws| + 1
  {
    if ws != [] {
      WrittenIsHistory(sum, slots, ws[..|ws| - 1]);
      var h := History(sum, ws);
      assert h[..|h| - 1] == History(sum, ws[..|ws| - 1]);
    }
  }

  lemma LogHolds(sum: Checksum, slots: seq<Event>, ws: seq<Write>)
    requires slots != []
    ensures Items(Written(sum, slots, ws).ring) == Last(History(sum, ws), |slots|)
  {
    WrittenIsHistory(sum, slots, ws);
    HoldsTheLast(slots, History(sum, ws));
  }

  /** The i-th of the last n writes, as it was stamped. */
  lemma LastStamped(sum: Checksum, ws: seq<Write>, n: nat, i: nat)
    requires i < |Last(History(sum, ws), n)|
    ensures var e, k := Last(History(sum, ws), n)[i], |ws| - |Last(History(sum, ws), n)| + i;
            0 <= k < |ws| && e == Stamped(sum, ws[k].event, k + 1, ws[k].now) && CrcOk(sum, e)
  {
    var h := History(sum, ws);
    var k := |ws| - |Last(h, n)| + i;
    LastAt(h, n, i);
    StampHolds(sum, ws[k].event, k + 1, ws[k].now);
  }

  lemma LastAt<T>(xs: seq<T>, n: nat, i: nat)
    requires i < |Last(xs, n)|
    ensures Last(xs, n)[i] == xs[|xs| - |Last(xs, n)| + i]
  {}

  lemma StampHolds(sum: Checksum, e: Event, sequence: nat, now: nat)
    ensures CrcOk(sum, Stamped(sum, e, sequence, now))
  {
    assert Unsigned(Stamped(sum, e, sequence, now)) ==
           Unsigned(e.(timestamp := if e.timestamp == 0 then now else e.timestamp, sequence := sequence));
  }

  /** After any writes the log holds the last of them in order, stamped with
      consecutive sequence numbers and checksums that hold. */
  lemma LogHoldsTheLast(sum: Checksum, slots: seq<Event>, ws: seq<Write>, items: seq<Event>, i: nat)
    requires slots != [] && items == Items(Written(sum, slots, ws).ring) && i < |items|
    ensures |items| == if |ws| <= |slots| then |ws| else |slots|
    ensures var k := |ws| - |items| + i; var written := ws[k].event;
            && items[i] == written.(timestamp := if written.timestamp == 0 then ws[k].now else written.timestamp,
                                    sequence := k + 1, crc := items[i].crc)
            && items[i].crc == sum(items[i].(crc := 0))
  {
    LogHolds(sum, slots, ws);
    LastStamped(sum, ws, |slots|, i);
  }

  class Journal {
    const file: RingFile<Event>
    const sum: Checksum
    var nextSequence: nat

    ghost predicate Ok() reads this, file, file.slots {
      file.Ok()
    }

    ghost function View(): Log reads this, file, file.slots {
      Log(file.View(), nextSequence)
    }

    constructor (file: RingFile<Event>, sum: Checksum)
      requires file.Ok()
      ensures Ok() && this.file == file && View() == Log(file.View(), 1) && this.sum == sum
    {
      this.file, this.sum, nextSequence := file, sum, 1;
    }

    method WriteEvent(event: Event, now: nat)
      requires Ok()
      modifies this, file, file.slots
      ensures Ok() && View() == Apply(sum, old(View()), Write(event, now))
    {
      var e := event;
      if e.timestamp == 0 {
        e := e.(timestamp := now);
      }
      e := e.(sequence := nextSequence);
      nextSequence := nextSequence + 1;
      e := e.(crc := sum(Unsigned(e)));
      file.Add(e);
    }
  }

  /** What a next call hands out: a match whose checksum holds. */
  predicate HandsOut(sum: Checksum, f: Filter, e: Event) {
    Matches(f, e) && CrcOk(sum, e)
  }

  lemma {:induction false} SameMatching(sum: Checksum, f: Filter, xs: seq<Event>)
    requires forall i :: 0 <= i < |xs| ==> CrcOk(sum, xs[i])
    ensures Matching(xs, e => HandsOut(sum, f, e)) == Matching(xs, e => Matches(f, e))
  {
    if xs != [] { SameMatching(sum, f, xs[1..]); }
  }

  /** A query over a written log: repeated next calls give exactly the events held
      that match, in order, as many as the query counted. */
  lemma QueryGivesMatches(sum: Checksum, slots: seq<Event>, ws: seq<Write>, f: Filter)
    requires slots != []
    ensures var r := Written(sum, slots, ws).ring;
            Drain(r, Start(r), e => HandsOut(sum, f, e), e => false) == Matching(Items(r), e => Matches(f, e))
  {
    var r := Written(sum, slots, ws).ring;
    forall i | 0 <= i < |Items(r)| ensures CrcOk(sum, Items(r)[i]) {
      LogHoldsTheLast(sum, slots, ws, Items(r), i);
    }
    DrainIsTaken(r, e => HandsOut(sum, f, e), e => false);
    TakenIsMatching(Items(r), e => HandsOut(sum, f, e), e => false);
    SameMatching(sum, f, Items(r));
  }
}

/** The time series: records in a window of time, over a ring. */
module TimeSeries {
  import opened Rings

  const UINT64_MAX: nat := 0xFFFF_FFFF_FFFF_FFFF

  datatype Record = Record(timestamp: nat, values: seq<int>, flags: nat, moduleId: nat)

  datatype Window = Window(startUs: nat, endUs: nat)

  /** No end means no limit. */
  function Query(startUs: nat, endUs: nat): Window {
    Window(startUs, if endUs != 0 then endUs else UINT64_MAX)
  }

  predicate Inside(w: Window, x: Record) {
    w.startUs <= x.timestamp <= w.endUs
  }

  predicate Past(w: Window, x: Record) {
    x.timestamp > w.endUs
  }

  /** Without an end every record from the start on is inside, as time stamps are 64 bits
      wide, and none is past it. */
  lemma OpenEnd(startUs: nat, x: Record)
    requires x.timestamp < 0x1_0000_0000_0000_0000
    ensures (Inside(Query(startUs, 0), x) <==> startUs <= x.timestamp) && !Past(Query(startUs, 0), x)
  {}

  lemma GivenEnd(startUs: nat, endUs: nat, x: Record)
    requires endUs != 0
    ensures Inside(Query(startUs, endUs), x) <==> startUs <= x.timestamp <= endUs
    ensures Past(Query(startUs, endUs), x) <==> x.timestamp > endUs
  {}

  /** No record inside the window is older in the series than one past its end. */
  ghost predicate InTime(w: Window, xs: seq<Record>) {
    forall i, j :: 0 <= i < j < |xs| && Past(w, xs[i]) ==> !Inside(w, xs[j])
  }

  /** Repeated next calls up to the first end give every record in the window, as
      many as the query counted, exactly when the records held are in time. */
  lemma QueryGivesWindow(slots: seq<Record>, xs: seq<Record>, startUs: nat, endUs: nat)
    requires slots != []
    ensures var r, w := AppendAll(Empty(slots), xs), Query(startUs, endUs);
            var given := Drain(r, Start(r), x => Inside(w, x), x => Past(w, x));
            && (InTime(w, Last(xs, |slots|)) <==> given == Matching(Last(xs, |slots|), x => Inside(w, x)))
            && (InTime(w, Last(xs, |slots|)) <==> |given| == |Matching(Last(xs, |slots|), x => Inside(w, x))|)
  {
    var r, w := AppendAll(Empty(slots), xs), Query(startUs, endUs);
    HoldsTheLast(slots, xs);
    DrainIsTaken(r, x => Inside(w, x), x => Past(w, x));
    TakenIsMatching(Items(r), x => Inside(w, x), x => Past(w, x));
  }

  /** Records appended with timestamps that never go back are in time for any window. */
  lemma MonotoneIsInTime(xs: seq<Record>, n: nat, w: Window)
    requires forall i, j :: 0 <= i < j < |xs| ==> xs[i].timestamp <= xs[j].timestamp
    ensures InTime(w, Last(xs, n))
  {}
}
