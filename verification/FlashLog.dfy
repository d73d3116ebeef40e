/**
 The wear-levelled flash log, started on blank flash: entries fill one sector of
 slots after another, and the next sector is the neighbour while that is unused
 and the least erased one otherwise.

 The functions on `Log` are proved to wear all sectors evenly and to keep the
 recent entries; `FlashLog` updates arrays in place. Erase counts stay below the
 largest 32-bit number here.
 */
module FlashLogs {
  import opened Types

  /** A 16 KB sector of 64-byte slots; slot 0 is for the sector header. */
  const SLOTS: nat := 256
  const SLOT_SIZE: nat := 64

  type Entry = seq<bv8>

  datatype Slot = Blank | Header(sector: nat, eraseCount: nat) | Data(entry: Entry)

  /** An entry written, and the slot it went to. */
  datatype Record = Record(entry: Entry, index: nat)

  /** `written` lists every write so far; `clobbered` says whether a slot that was
      not blank has been programmed. */
  datatype Log = Log(
    flash: seq<Slot>, erases: seq<nat>, counts: seq<nat>, current: nat, writePos: nat,
    totalErases: nat, written: seq<Record>, clobbered: bool)

  predicate Shaped(l: Log) {
    && |l.erases| == |l.counts| >= 1 && |l.flash| == |l.erases| * SLOTS
    && l.current < |l.erases| && 1 <= l.writePos <= SLOTS
  }

  /** What initialisation finds on blank flash: the first sector is used as it is. */
  function Fresh(n: nat): (l: Log)
    requires n >= 1
    ensures Shaped(l)
  {
    Log(seq(n * SLOTS, _ => Blank), seq(n, _ => 0), seq(n, _ => 0), 0, 1, 0, [], false)
  }

  /** The first of the least erased sectors below n but `exclude`; -1 if none. */
  function Least(erases: seq<nat>, exclude: nat, n: nat): (r: int)
    requires n <= |erases|
    ensures -1 <= r < n
  {
    if n == 0 then -1 else
    var m := Least(erases, exclude, n - 1);
    if n - 1 != exclude && (m < 0 || erases[n - 1] < erases[m]) then n - 1 else m
  }

  /** What the scan finds is another sector, and none is less erased. */
  lemma {:induction false} LeastIsMinimum(erases: seq<nat>, exclude: nat, n: nat)
    requires n <= |erases|
    ensures var r := Least(erases, exclude, n);
            && (r < 0 <==> n == 0 || (n == 1 && exclude == 0))
            && (r >= 0 ==> r != exclude && forall i :: 0 <= i < n && i != exclude ==> erases[r] <= erases[i])
            && (r >= 0 ==> forall i :: 0 <= i < r && i != exclude ==> erases[r] < erases[i])
  {
    if n > 0 { LeastIsMinimum(erases, exclude, n - 1); }
  }

  function NextSector(l: Log): (r: nat)
    requires Shaped(l)
    ensures r < |l.erases| && (|l.erases| >= 2 ==> r != l.current)
  {
    var next := (l.current + 1) % |l.erases|;
    if l.counts[next] == 0 then next else FindMin(l.erases, l.current)
  }

  /** The scan starts from sector 0, and stays there if there is no other. */
  function FindMin(erases: seq<nat>, exclude: nat): (r: nat)
    requires exclude < |erases|
    ensures r < |erases| && (|erases| >= 2 ==> r != exclude)
  {
    LeastIsMinimum(erases, exclude, |erases|);
    Max(Least(erases, exclude, |erases|), 0)
  }

  function Erase(flash: seq<Slot>, sector: nat): (r: seq<Slot>)
    ensures |r| == |flash|
  {
    seq(|flash|, k requires 0 <= k < |flash| => if sector * SLOTS <= k < sector * SLOTS + SLOTS then Blank else flash[k])
  }

  /** A sector erased and given its header. */
  function Prepared(l: Log, sector: nat): (r: Log)
    requires Shaped(l) && sector < |l.erases|
    ensures Shaped(r)
  {
    var erases := l.erases[sector := l.erases[sector] + 1];
    var erased := Erase(l.flash, sector);
    l.(flash := erased[sector * SLOTS := Header(sector, erases[sector])],
       erases := erases, totalErases := l.totalErases + 1, counts := l.counts[sector := 0],
       clobbered := l.clobbered || erased[sector * SLOTS] != Blank)
  }

  function Advance(l: Log): (r: Log)
    requires Shaped(l)
    ensures Shaped(r)
  {
    var next := NextSector(l);
    Prepared(l, next).(current := next, writePos := 1)
  }

  /** Into the slot after the last one. */
  function Store(l: Log, entry: Entry): (r: Log)
    requires Shaped(l) && l.writePos < SLOTS
    ensures Shaped(r)
  {
    var k := l.current * SLOTS + l.writePos;
    l.(flash := l.flash[k := Data(entry)], writePos := l.writePos + 1,
       counts := l.counts[l.current := l.counts[l.current] + 1],
       written := l.written + [Record(entry, k)],
       clobbered := l.clobbered || l.flash[k] != Blank)
  }

  /** The new log, and the offset handed back. */
  function Write(l: Log, entry: Entry): (r: (Log, nat))
    requires Shaped(l)
    ensures Shaped(r.0) && |r.0.erases| == |l.erases|
  {
    var room := if l.writePos >= SLOTS then Advance(l) else l;
    (Store(room, entry), (room.current * SLOTS + room.writePos) * SLOT_SIZE)
  }

  /** `crcOk` stands for the checksum over what the slot holds. */
  function Read(l: Log, crcOk: Slot -> bool, offset: nat): (r: (bool, Slot))
    requires offset / SLOT_SIZE < |l.flash|
  {
    var s := l.flash[offset / SLOT_SIZE];
    (crcOk(s), s)
  }

  function WriteAll(l: Log, entries: seq<Entry>): (r: Log)
    requires Shaped(l)
    ensures Shaped(r) && |r.erases| == |l.erases|
    decreases entries
  {
    if entries == [] then l else WriteAll(Write(l, entries[0]).0, entries[1..])
  }

  // --------------------------------------------------------------- invariant

  function Sum(xs: seq<nat>): nat {
    if xs == [] then 0 else xs[0] + Sum(xs[1..])
  }

  /** The current sector has been erased most, and every sector at most once less;
      a sector that holds nothing has never been erased. */
  ghost predicate Even(l: Log)
    requires Shaped(l)
  {
    && (forall s :: 0 <= s < |l.erases| ==> l.erases[s] <= l.erases[l.current] <= l.erases[s] + 1)
    && (forall s :: 0 <= s < |l.erases| && s != l.current && l.counts[s] == 0 ==> l.erases[s] == 0)
    && l.totalErases == Sum(l.erases)
  }

  ghost predicate Holds(l: Log, r: Record) {
    r.index < |l.flash| && l.flash[r.index] == Data(r.entry)
  }

  /** How many entries before those of the current sector are kept: a sector full, if
      there is another sector. */
  function Kept(l: Log): nat {
    if |l.erases| >= 2 then SLOTS - 1 else 0
  }

  /** The entries of the current sector are the latest, one after the other, and
      the 255 before them are still in some other sector, if there is one. */
  ghost predicate Recent(l: Log)
    requires Shaped(l)
  {
    var here, w := l.writePos - 1, |l.written|;
    && here <= w && l.counts[l.current] == here
    && (w == here || w >= here + SLOTS - 1)
    && (forall j :: w - here <= j < w ==>
          l.written[j].index == l.current * SLOTS + 1 + (j - (w - here)) && Holds(l, l.written[j]))
    && (forall j :: 0 <= j < w - here && w - here - Kept(l) <= j ==>
          l.written[j].index / SLOTS != l.current && Holds(l, l.written[j]))
  }

  /** What is still to be programmed in the current sector is blank. */
  ghost predicate Unspent(l: Log)
    requires Shaped(l)
  {
    !l.clobbered && forall k :: l.current * SLOTS + l.writePos <= k < l.current * SLOTS + SLOTS ==> l.flash[k] == Blank
  }

  ghost predicate Inv(l: Log) {
    Shaped(l) && Even(l) && Recent(l) && Unspent(l)
  }

  lemma {:induction false} SumUpdate(xs: seq<nat>, i: nat, x: nat)
    requires i < |xs|
    ensures Sum(xs[i := x]) == Sum(xs) - xs[i] + x
  {
    if i == 0 {
      assert xs[0 := x][1..] == xs[1..];
    } else {
      SumUpdate(xs[1..], i - 1, x);
      assert xs[i := x][1..] == xs[1..][i - 1 := x];
    }
  }

  lemma {:induction false} SumZero(n: nat)
    ensures Sum(seq(n, _ => 0)) == 0
  {
    if n > 0 {
      SumZero(n - 1);
      assert seq(n, _ => 0)[1..] == seq(n - 1, _ => 0);
    }
  }

  lemma FreshInv(n: nat)
    requires n >= 1
    ensures Inv(Fresh(n))
  {
    SumZero(n);
    assert Fresh(n).erases == seq(n, _ => 0);
  }

  /** The sector taken next is among the least erased of the others. */
  lemma NextIsLeastWorn(l: Log)
    requires Shaped(l) && Even(l)
    ensures var next := NextSector(l);
            forall s :: 0 <= s < |l.erases| && s != l.current ==> l.erases[next] <= l.erases[s]
  {
    LeastIsMinimum(l.erases, l.current, |l.erases|);
  }

  lemma AdvanceKeepsEven(l: Log)
    requires Inv(l) && l.writePos == SLOTS
    ensures Even(Advance(l))
  {
    var next := NextSector(l);
    NextIsLeastWorn(l);
    SumUpdate(l.erases, next, l.erases[next] + 1);
    var r := Advance(l);
    assert r.erases == l.erases[next := l.erases[next] + 1] && r.counts == l.counts[next := 0] && r.current == next;
    forall s | 0 <= s < |r.erases| ensures r.erases[s] <= r.erases[next] <= r.erases[s] + 1 {
      assert l.erases[s] <= l.erases[l.current] <= l.erases[s] + 1;
      assert l.erases[next] <= l.erases[l.current] <= l.erases[next] + 1;
    }
  }

  lemma AdvanceKeepsInv(l: Log)
    requires Inv(l) && l.writePos == SLOTS
    ensures Inv(Advance(l))
  {
    AdvanceKeepsEven(l);
    var r, w := Advance(l), |l.written|;
    forall j | 0 <= j && w - Kept(l) <= j < w ensures r.written[j].index / SLOTS != r.current && Holds(r, r.written[j]) {
      assert Holds(l, l.written[j]);
      assert l.written[j].index / SLOTS == l.current;
    }
  }

  lemma StoreKeepsInv(l: Log, entry: Entry)
    requires Inv(l) && l.writePos < SLOTS
    ensures Inv(Store(l, entry))
  {
    var r := Store(l, entry);
    forall j | 0 <= j < |l.written| && j >= |l.written| - (l.writePos - 1) - Kept(l)
      ensures Holds(r, l.written[j])
    {
      assert Holds(l, l.written[j]);
    }
  }

  lemma WriteKeepsInv(l: Log, entry: Entry)
    requires Inv(l)
    ensures Inv(Write(l, entry).0)
  {
    if l.writePos >= SLOTS { AdvanceKeepsInv(l); }
    StoreKeepsInv(if l.writePos >= SLOTS then Advance(l) else l, entry);
  }

  lemma {:induction false} RunKeepsInv(l: Log, entries: seq<Entry>)
    requires Inv(l)
    decreases entries
    ensures Inv(WriteAll(l, entries))
  {
    if entries != [] {
      WriteKeepsInv(l, entries[0]);
      RunKeepsInv(Write(l, entries[0]).0, entries[1..]);
    }
  }

  /** From blank flash, after any writes: erase counts are within one of each
      other, their sum is the total, and no slot was programmed twice in between. */
  lemma WearIsEven(n: nat, entries: seq<Entry>)
    requires n >= 1
    ensures var l := WriteAll(Fresh(n), entries);
            && (forall s, t :: 0 <= s < n && 0 <= t < n ==> l.erases[s] <= l.erases[t] + 1)
            && l.totalErases == Sum(l.erases) && !l.clobbered
  {
    FreshInv(n);
    RunKeepsInv(Fresh(n), entries);
    RunKeepsSize(Fresh(n), entries);
  }

  lemma {:induction false} RunKeepsSize(l: Log, entries: seq<Entry>)
    requires Shaped(l)
    decreases entries
    ensures var r := WriteAll(l, entries);
            && |r.written| == |l.written| + |entries|
            && (forall k :: 0 <= k < |l.written| ==> r.written[k] == l.written[k])
            && (forall k :: 0 <= k < |entries| ==> r.written[|l.written| + k].entry == entries[k])
  {
    if entries != [] {
      var l' := Write(l, entries[0]).0;
      RunKeepsSize(l', entries[1..]);
      assert |l'.written| == |l.written| + 1;
      forall k | 0 <= k < |entries| ensures WriteAll(l, entries).written[|l.written| + k].entry == entries[k] {
        if k > 0 { assert entries[1..][k - 1] == entries[k]; }
      }
    }
  }

  /** The k-th of the entries, counting the writes from blank flash. */
  ghost function OffsetOf(n: nat, entries: seq<Entry>, k: nat): (r: nat)
    requires n >= 1 && k < |entries|
  {
    Write(WriteAll(Fresh(n), entries[..k]), entries[k]).1
  }

  lemma {:induction false} WriteLast(l: Log, entries: seq<Entry>, entry: Entry)
    requires Shaped(l)
    decreases entries
    ensures WriteAll(l, entries + [entry]) == Write(WriteAll(l, entries), entry).0
  {
    if entries == [] {
      assert WriteAll(l, [entry]) == WriteAll(Write(l, entry).0, []);
    } else {
      WriteLast(Write(l, entries[0]).0, entries[1..], entry);
      assert (entries + [entry])[1..] == entries[1..] + [entry];
    }
  }

  lemma {:induction false} WriteSplit(l: Log, a: seq<Entry>, b: seq<Entry>)
    requires Shaped(l)
    decreases a
    ensures WriteAll(l, a + b) == WriteAll(WriteAll(l, a), b)
  {
    if a == [] {
      assert a + b == b;
    } else {
      WriteSplit(Write(l, a[0]).0, a[1..], b);
      assert (a + b)[1..] == a[1..] + b;
    }
  }

  /** The k-th record of the history is the k-th entry, at the offset its write
      returned. */
  lemma WrittenAt(n: nat, entries: seq<Entry>, k: nat)
    requires n >= 1 && k < |entries|
    ensures var l, offset := WriteAll(Fresh(n), entries), OffsetOf(n, entries, k);
            |l.written| == |entries| && l.written[k] == Record(entries[k], offset / SLOT_SIZE)
  {
    var before := WriteAll(Fresh(n), entries[..k]);
    var next := Write(before, entries[k]).0;
    assert entries == entries[..k + 1] + entries[k + 1..] && entries[..k + 1] == entries[..k] + [entries[k]];
    WriteSplit(Fresh(n), entries[..k + 1], entries[k + 1..]);
    WriteLast(Fresh(n), entries[..k], entries[k]);
    RunKeepsSize(Fresh(n), entries);
    RunKeepsSize(Fresh(n), entries[..k]);
    assert next.written[k] == Record(entries[k], OffsetOf(n, entries, k) / SLOT_SIZE);
    RunKeepsSize(next, entries[k + 1..]);
  }

  /** All of the current sector reads back at the offsets its writes returned, and with
      two sectors or more so do the 255 writes before, or all if there were fewer. */
  lemma RecentReadBack(n: nat, entries: seq<Entry>, k: nat, crcOk: Slot -> bool)
    requires n >= 1 && k < |entries|
    requires k >= |entries| - (if n >= 2 then SLOTS - 1 else 0) - (WriteAll(Fresh(n), entries).writePos - 1)
    ensures var l, offset := WriteAll(Fresh(n), entries), OffsetOf(n, entries, k);
            && offset / SLOT_SIZE < |l.flash|
            && Read(l, crcOk, offset) == (crcOk(Data(entries[k])), Data(entries[k]))
  {
    FreshInv(n);
    RunKeepsInv(Fresh(n), entries);
    WrittenAt(n, entries, k);
    var l := WriteAll(Fresh(n), entries);
    assert Holds(l, l.written[k]);
  }

  // ------------------------------------------------- what a write programs

  /** Flash can be programmed where it is blank, and erased by the sector: outside the
      sector it erased, if it did, a write changes one slot that was blank, to its entry. */
  lemma WriteProgramsBlank(l: Log, entry: Entry, k: nat)
    requires Inv(l) && k < |l.flash|
    ensures var (l', offset) := Write(l, entry);
            var erased := if l.writePos < SLOTS then |l.erases| else l'.current;
            && |l'.flash| == |l.flash| && l'.current < |l.erases|
            && (if k == offset / SLOT_SIZE then l'.flash[k] == Data(entry)
                else if erased * SLOTS <= k < erased * SLOTS + SLOTS
                then l'.flash[k] == (if k == erased * SLOTS then Header(erased, l'.erases[erased]) else Blank)
                else l'.flash[k] == l.flash[k])
            && (k == offset / SLOT_SIZE && l.writePos < SLOTS ==> l.flash[k] == Blank)
            && l'.current * SLOTS < offset / SLOT_SIZE < l'.current * SLOTS + SLOTS
  {
    if l.writePos >= SLOTS { AdvanceKeepsInv(l); }
  }

  /** Programming a slot that is not blank would be noticed, and never forgotten. */
  lemma ClobberingShows(l: Log, entry: Entry, sector: nat)
    requires Shaped(l) && sector < |l.erases|
    ensures l.writePos < SLOTS ==>
              (Store(l, entry).clobbered <==> l.clobbered || l.flash[l.current * SLOTS + l.writePos] != Blank)
    ensures Prepared(l, sector).clobbered == l.clobbered
  {}

  /** A sector that has been erased begins with its header, which says how often. */
  ghost predicate Headed(l: Log)
    requires Shaped(l)
  {
    forall s :: 0 <= s < |l.erases| && l.erases[s] > 0 ==> l.flash[s * SLOTS] == Header(s, l.erases[s])
  }

  lemma WriteKeepsHeaders(l: Log, entry: Entry)
    requires Inv(l) && Headed(l)
    ensures Headed(Write(l, entry).0)
  {
    var l' := Write(l, entry).0;
    forall s | 0 <= s < |l'.erases| && l'.erases[s] > 0 ensures l'.flash[s * SLOTS] == Header(s, l'.erases[s]) {
      WriteProgramsBlank(l, entry, s * SLOTS);
      WriteErases(l, entry, s);
    }
  }

  /** The erase count rises by one of the sector erased, and of no other. */
  lemma WriteErases(l: Log, entry: Entry, s: nat)
    requires Shaped(l) && s < |l.erases|
    ensures var l' := Write(l, entry).0;
            |l'.erases| == |l.erases| && l'.erases[s] == l.erases[s] + if l.writePos >= SLOTS && s == l'.current then 1 else 0
  {}

  /** So in every log started on blank flash. */
  lemma {:induction false} HeadersStand(l: Log, entries: seq<Entry>)
    requires Inv(l) && Headed(l)
    ensures Headed(WriteAll(l, entries))
    decreases entries
  {
    if entries != [] {
      WriteKeepsInv(l, entries[0]);
      WriteKeepsHeaders(l, entries[0]);
      HeadersStand(Write(l, entries[0]).0, entries[1..]);
    }
  }

  // ------------------------------------------------------ until it is full

  /** The sector taken next: the neighbour, round the end, if nothing has been written to
      it, and else the first of the least erased but the current one. */
  lemma NextSectorOutcome(l: Log)
    requires Shaped(l) && |l.erases| >= 2
    ensures var next, neighbor := NextSector(l), if l.current + 1 == |l.erases| then 0 else l.current + 1;
            if l.counts[neighbor] == 0 then next == neighbor
            else && next != l.current && (forall s :: 0 <= s < |l.erases| && s != l.current ==> l.erases[next] <= l.erases[s])
                 && (forall s :: 0 <= s < next && s != l.current ==> l.erases[next] < l.erases[s])
  {
    Neighbor(l.current, |l.erases|);
    LeastIsMinimum(l.erases, l.current, |l.erases|);
  }

  lemma Neighbor(c: nat, n: nat)
    requires c < n
    ensures (c + 1) % n == if c + 1 == n then 0 else c + 1
  {
    if c + 1 < n { SmallMod(c + 1, n); }
  }

  lemma SmallMod(a: nat, n: nat)
    requires a < n
    ensures a % n == a
  {}

  /** Where entry j goes as long as no sector has been used twice. */
  function SlotOf(j: nat): nat {
    j / 255 * 256 + 1 + j % 255
  }

  lemma SlotOfInSector(sector: nat, p: nat)
    requires p < SLOTS - 1
    ensures SlotOf(sector * (SLOTS - 1) + p) == sector * SLOTS + 1 + p
  {
    var j := sector * (SLOTS - 1) + p;
    assert j / (SLOTS - 1) == sector && j % (SLOTS - 1) == p;
  }

  /** The sectors up to the current one are full, in order, and the others unused. */
  ghost predicate FirstPass(l: Log) {
    && Shaped(l) && |l.written| == l.current * (SLOTS - 1) + (l.writePos - 1)
    && (forall s :: 0 <= s < |l.counts| ==> l.counts[s] == if s < l.current then SLOTS - 1 else if s == l.current then l.writePos - 1 else 0)
    && forall j :: 0 <= j < |l.written| ==> l.written[j].index == SlotOf(j) && Holds(l, l.written[j])
  }

  lemma EarlierSector(j: nat, current: nat)
    requires j < current * (SLOTS - 1) + (SLOTS - 1)
    ensures SlotOf(j) < (current + 1) * SLOTS
  {
    assert j / (SLOTS - 1) <= current;
  }

  lemma AdvanceInFirstPass(l: Log)
    requires FirstPass(l) && l.writePos == SLOTS && l.current + 1 < |l.erases|
    ensures FirstPass(Advance(l)) && Advance(l).current == l.current + 1 && Advance(l).writePos == 1 && Advance(l).written == l.written
  {
    var r := Advance(l);
    Neighbor(l.current, |l.erases|);
    assert NextSector(l) == l.current + 1;
    forall j | 0 <= j < |l.written| ensures Holds(r, r.written[j]) {
      AdvanceKeeps(l, j);
    }
  }

  lemma AdvanceKeeps(l: Log, j: nat)
    requires FirstPass(l) && l.writePos == SLOTS && l.current + 1 < |l.erases| && NextSector(l) == l.current + 1 && j < |l.written|
    ensures Advance(l).written == l.written && Holds(Advance(l), l.written[j])
  {
    assert Holds(l, l.written[j]);
    EarlierSector(j, l.current);
  }

  lemma StoreInFirstPass(l: Log, entry: Entry)
    requires FirstPass(l) && l.writePos < SLOTS
    ensures FirstPass(Store(l, entry))
  {
    var r, m := Store(l, entry), |l.written|;
    SlotOfInSector(l.current, l.writePos - 1);
    forall j | 0 <= j < m ensures Holds(r, r.written[j]) {
      assert Holds(l, l.written[j]);
      SlotsDiffer(j, m);
    }
  }

  lemma SlotsDiffer(j: nat, m: nat)
    requires j < m
    ensures SlotOf(j) < SlotOf(m)
  {
    if j / (SLOTS - 1) < m / (SLOTS - 1) {
      assert (j / (SLOTS - 1) + 1) * SLOTS <= m / (SLOTS - 1) * SLOTS;
    }
  }

  lemma WriteInFirstPass(l: Log, entry: Entry)
    requires FirstPass(l) && |l.written| < |l.erases| * (SLOTS - 1)
    ensures FirstPass(Write(l, entry).0) && |Write(l, entry).0.written| == |l.written| + 1
  {
    if l.writePos >= SLOTS {
      AdvanceInFirstPass(l);
      StoreInFirstPass(Advance(l), entry);
    } else {
      StoreInFirstPass(l, entry);
    }
  }

  lemma {:induction false} FirstPassLasts(l: Log, entries: seq<Entry>)
    requires FirstPass(l) && |l.written| + |entries| <= |l.erases| * (SLOTS - 1)
    ensures FirstPass(WriteAll(l, entries))
    decreases entries
  {
    if entries != [] {
      WriteInFirstPass(l, entries[0]);
      FirstPassLasts(Write(l, entries[0]).0, entries[1..]);
    }
  }

  /** Nothing is lost before the flash is full: as long as no more than 255 entries for
      each sector have been written, each of them is in the slot after the one before it,
      sector by sector past the headers, and reads back there. */
  lemma AllKeptUntilFull(n: nat, entries: seq<Entry>, k: nat, crcOk: Slot -> bool)
    requires n >= 1 && k < |entries| <= n * (SLOTS - 1)
    ensures var l, offset := WriteAll(Fresh(n), entries), OffsetOf(n, entries, k);
            && offset == SlotOf(k) * 64 < |l.flash| * 64
            && Read(l, crcOk, offset) == (crcOk(Data(entries[k])), Data(entries[k]))
  {
    assert FirstPass(Fresh(n));
    FirstPassLasts(Fresh(n), entries);
    WrittenAt(n, entries, k);
    var l := WriteAll(Fresh(n), entries);
    assert Holds(l, l.written[k]);
  }

  // ---------------------------------------------------------------- in place

  class FlashLog {
    const flash: array<Slot>
    const erases: array<nat>
    const counts: array<nat>
    var current: nat
    var writePos: nat
    var totalErases: nat
    ghost var written: seq<Record>
    ghost var clobbered: bool

    ghost predicate Ok() reads this, flash, erases, counts {
      erases != counts && Inv(View())
    }

    ghost function View(): Log reads this, flash, erases, counts {
      Log(flash[..], erases[..], counts[..], current, writePos, totalErases, written, clobbered)
    }

    constructor (n: nat)
      requires n >= 1
      ensures Ok() && View() == Fresh(n)
    {
      flash := new Slot[n * SLOTS](_ => Blank);
      erases := new nat[n](_ => 0);
      counts := new nat[n](_ => 0);
      current, writePos, totalErases := 0, 1, 0;
      written, clobbered := [], false;
      new;
      assert flash[..] == Fresh(n).flash && erases[..] == Fresh(n).erases && counts[..] == Fresh(n).counts;
      FreshInv(n);
    }

    method FindMinEraseSector(exclude: nat) returns (sector: nat)
      requires Ok() && exclude < erases.Length
      ensures sector == FindMin(erases[..], exclude)
    {
      sector := 0;
      var found := false;
      for i := 0 to erases.Length
        invariant sector < erases.Length
        invariant Least(erases[..], exclude, i) == if found then sector else -1
      {
        if i != exclude && (!found || erases[i] < erases[sector]) {
          sector, found := i, true;
        }
      }
      LeastIsMinimum(erases[..], exclude, erases.Length);
    }

    method ProgramSlot(k: nat, s: Slot)
      requires k < flash.Length
      modifies this`clobbered, flash
      ensures flash[..] == old(flash[..])[k := s] && clobbered == (old(clobbered) || old(flash[k]) != Blank)
    {
      clobbered := clobbered || flash[k] != Blank;
      flash[k] := s;
    }

    method EraseAndInit(sector: nat)
      requires Shaped(View()) && sector < erases.Length && erases != counts
      modifies this`totalErases, this`clobbered, flash, erases, counts
      ensures View() == Prepared(old(View()), sector)
    {
      forall k | sector * SLOTS <= k < sector * SLOTS + SLOTS {
        flash[k] := Blank;
      }
      assert flash[..] == Erase(old(flash[..]), sector);
      erases[sector] := erases[sector] + 1;
      totalErases := totalErases + 1;
      ProgramSlot(sector * SLOTS, Header(sector, erases[sector]));
      counts[sector] := 0;
    }

    method ChooseSector() returns (next: nat)
      requires Ok()
      ensures next == NextSector(View())
    {
      next := (current + 1) % erases.Length;
      if counts[next] > 0 {
        next := FindMinEraseSector(current);
      }
    }

    method AdvanceSector()
      requires Ok() && writePos == SLOTS
      modifies this, flash, erases, counts
      ensures Ok() && View() == Advance(old(View()))
    {
      AdvanceKeepsInv(View());
      var next := ChooseSector();
      EraseAndInit(next);
      current := next;
      writePos := 1;
    }

    method WriteEntry(entry: Entry) returns (offset: nat)
      requires Ok()
      modifies this, flash, erases, counts
      ensures Ok() && (View(), offset) == Write(old(View()), entry)
    {
      if writePos >= SLOTS {
        AdvanceSector();
      }
      StoreKeepsInv(View(), entry);
      offset := (current * SLOTS + writePos) * SLOT_SIZE;
      StoreEntry(entry, offset / SLOT_SIZE);
    }

    method StoreEntry(entry: Entry, index: nat)
      requires Shaped(View()) && erases != counts && writePos < SLOTS && index == current * SLOTS + writePos
      modifies this`writePos, this`written, this`clobbered, flash, counts
      ensures View() == Store(old(View()), entry)
    {
      ProgramSlot(index, Data(entry));
      writePos := writePos + 1;
      counts[current] := counts[current] + 1;
      written := written + [Record(entry, index)];
    }
  }
}
