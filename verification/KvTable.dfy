/**
 The key-value namespace: a table of slots probed linearly from the hash of a
 key, in which deleting leaves a tombstone. The hash is any function; the lemmas
 on values say that the table is a finite map, and `Namespace` updates the slots
 in place.
 */
module KvTable {
  import opened Types


  const MAX_KEY_LEN: nat := 14
  const MAX_VALUE_LEN: nat := 14

  type Key = string
  type Bytes = seq<bv8>

  datatype Slot = Free | Used(key: Key, value: Bytes) | Deleted

  /** The j-th slot probed from `start`. */
  function Probe(start: nat, j: nat, n: nat): (i: nat)
    requires start < n && j < n
    ensures i < n
  {
    if start + j < n then start + j else start + j - n
  }

  /** How many probes from `start` it takes to reach slot i. */
  function Distance(start: nat, i: nat, n: nat): (j: nat)
    requires start < n && i < n
    ensures j < n && Probe(start, j, n) == i
  {
    if start <= i then i - start else i + n - start
  }

  /** Stepping on wraps at the end of the table, and comes back to `start` after n steps. */
  lemma NextProbe(start: nat, j: nat, n: nat)
    requires start < n && j < n
    ensures var i := (Probe(start, j, n) + 1) % n;
            if j + 1 == n then i == start else i == Probe(start, j + 1, n) && i != start
  {
    SuccessorMod(Probe(start, j, n), n);
  }

  lemma SuccessorMod(i: nat, n: nat)
    requires i < n
    ensures (i + 1) % n == if i + 1 == n then 0 else i + 1
  {}

  /** Result of a probe: the key's slot, or else the first slot free for reuse. */
  datatype Found = At(i: nat) | Absent(reuse: int)

  /** Probing from the j-th slot on, with the first tombstone seen so far. */
  function Find(slots: seq<Slot>, start: nat, key: Key, j: nat, first: int): (r: Found)
    requires start < |slots| && j <= |slots| && -1 <= first < |slots|
    ensures r.At? ==> r.i < |slots| && slots[r.i].Used? && slots[r.i].key == key
    ensures r.Absent? ==> -1 <= r.reuse < |slots|
    decreases |slots| - j
  {
    if j == |slots| then Absent(first) else
    var i := Probe(start, j, |slots|);
    match slots[i]
    case Free => Absent(if first < 0 then i else first)
    case Deleted => Find(slots, start, key, j + 1, if first < 0 then i else first)
    case Used(k, _) => if k == key then At(i) else Find(slots, start, key, j + 1, first)
  }

  /** Hashing goes into the table by remainder. */
  function Start(hash: Key -> nat, key: Key, n: nat): (s: nat)
    requires n > 0
    ensures s < n
  {
    hash(key) % n
  }

  function Lookup(hash: Key -> nat, slots: seq<Slot>, key: Key): (r: Found)
    requires slots != []
    ensures r.At? ==> r.i < |slots| && slots[r.i].Used? && slots[r.i].key == key
    ensures r.Absent? ==> -1 <= r.reuse < |slots|
  {
    Find(slots, Start(hash, key, |slots|), key, 0, -1)
  }

  // --------------------------------------------------------------- invariant

  ghost predicate UniqueKeys(slots: seq<Slot>) {
    forall i, k :: 0 <= i < k < |slots| && slots[i].Used? && slots[k].Used? ==> slots[i].key != slots[k].key
  }

  /** No free slot lies between where a live key hashes to and where it is. */
  ghost predicate Reachable(hash: Key -> nat, slots: seq<Slot>, i: nat)
    requires i < |slots|
  {
    slots[i].Used? ==>
      var start := Start(hash, slots[i].key, |slots|);
      forall j :: 0 <= j < Distance(start, i, |slots|) ==> slots[Probe(start, j, |slots|)] != Free
  }

  ghost predicate Valid(hash: Key -> nat, slots: seq<Slot>) {
    && slots != []
    && UniqueKeys(slots)
    && forall i :: 0 <= i < |slots| ==> Reachable(hash, slots, i)
  }

  ghost function Keys(slots: seq<Slot>): set<Key> {
    set i | 0 <= i < |slots| && slots[i].Used? :: slots[i].key
  }

  ghost function IndexOf(slots: seq<Slot>, key: Key): (i: nat)
    requires key in Keys(slots)
    ensures i < |slots| && slots[i].Used? && slots[i].key == key
  {
    var i :| 0 <= i < |slots| && slots[i].Used? && slots[i].key == key;
    i
  }

  /** The abstract map. */
  ghost function Contents(slots: seq<Slot>): map<Key, Bytes> {
    map key | key in Keys(slots) :: slots[IndexOf(slots, key)].value
  }

  /** With unique keys, the map has what any live slot holds. */
  lemma LiveIsIn(slots: seq<Slot>, i: nat)
    requires UniqueKeys(slots) && i < |slots| && slots[i].Used?
    ensures slots[i].key in Contents(slots) && Contents(slots)[slots[i].key] == slots[i].value
  {
    var k := IndexOf(slots, slots[i].key);
    assert k == i;
  }

  function CountUsed(slots: seq<Slot>): (c: nat)
    ensures c <= |slots|
  {
    if slots == [] then 0 else (if slots[0].Used? then 1 else 0) + CountUsed(slots[1..])
  }

  // ------------------------------------------------------------------ probing

  /** A probe that misses has met no slot of the key; the slot it offers is not
      live, and everything probed before it is live. */
  lemma {:induction false} FindMisses(slots: seq<Slot>, start: nat, key: Key, j: nat, first: int, upTo: nat)
    requires start < |slots| && j <= upTo <= |slots| && -1 <= first < |slots|
    requires forall m :: j <= m < upTo ==> slots[Probe(start, m, |slots|)] != Free
    requires upTo < |slots| ==> slots[Probe(start, upTo, |slots|)].Used? && slots[Probe(start, upTo, |slots|)].key == key
    requires upTo < |slots|
    ensures Find(slots, start, key, j, first).At?
    decreases upTo - j
  {
    if j < upTo {
      var i := Probe(start, j, |slots|);
      FindMisses(slots, start, key, j + 1, if slots[i].Deleted? && first < 0 then i else first, upTo);
    }
  }

  lemma {:induction false} ReuseIsFirst(slots: seq<Slot>, start: nat, key: Key, j: nat, first: int)
    requires start < |slots| && j <= |slots| && -1 <= first < |slots|
    requires if first < 0 then forall m :: 0 <= m < j ==> slots[Probe(start, m, |slots|)].Used?
             else !slots[first].Used? && Distance(start, first, |slots|) < j
                  && forall m :: 0 <= m < Distance(start, first, |slots|) ==> slots[Probe(start, m, |slots|)].Used?
    ensures var r := Find(slots, start, key, j, first);
            r.Absent? ==>
              if r.reuse < 0 then forall m :: 0 <= m < |slots| ==> slots[Probe(start, m, |slots|)].Used?
              else !slots[r.reuse].Used?
                   && forall m :: 0 <= m < Distance(start, r.reuse, |slots|) ==> slots[Probe(start, m, |slots|)].Used?
    decreases |slots| - j
  {
    if j < |slots| {
      var i := Probe(start, j, |slots|);
      assert Distance(start, i, |slots|) == j;
      match slots[i]
      case Free =>
      case Deleted => ReuseIsFirst(slots, start, key, j + 1, if first < 0 then i else first);
      case Used(k, _) => if k != key { ReuseIsFirst(slots, start, key, j + 1, first); }
    }
  }

  /** Looking up a key finds it exactly when it is in the map, at its slot. */
  lemma LookupIsMembership(hash: Key -> nat, slots: seq<Slot>, key: Key)
    requires Valid(hash, slots)
    ensures Lookup(hash, slots, key).At? <==> key in Contents(slots)
    ensures Lookup(hash, slots, key).At? ==> Contents(slots)[key] == slots[Lookup(hash, slots, key).i].value
  {
    var start := Start(hash, key, |slots|);
    if key in Contents(slots) {
      var i := IndexOf(slots, key);
      assert Reachable(hash, slots, i);
      FindMisses(slots, start, key, 0, -1, Distance(start, i, |slots|));
    }
    if Lookup(hash, slots, key).At? { LiveIsIn(slots, Lookup(hash, slots, key).i); }
  }

  /** A missing key is offered a slot unless every slot is live. */
  lemma ReuseOffered(hash: Key -> nat, slots: seq<Slot>, key: Key)
    requires slots != [] && Lookup(hash, slots, key).Absent?
    ensures var r := Lookup(hash, slots, key).reuse;
            r < 0 <==> forall i :: 0 <= i < |slots| ==> slots[i].Used?
    ensures var r := Lookup(hash, slots, key).reuse; var start := Start(hash, key, |slots|);
            r >= 0 ==> !slots[r].Used? && forall m :: 0 <= m < Distance(start, r, |slots|) ==> slots[Probe(start, m, |slots|)].Used?
  {
    var start := Start(hash, key, |slots|);
    ReuseIsFirst(slots, start, key, 0, -1);
    if Lookup(hash, slots, key).reuse < 0 {
      forall i | 0 <= i < |slots| ensures slots[i].Used? {
        assert Probe(start, Distance(start, i, |slots|), |slots|) == i;
      }
    }
  }

  // ---------------------------------------------------------------- counting

  lemma {:induction false} CountUpdate(slots: seq<Slot>, i: nat, s: Slot)
    requires i < |slots|
    ensures CountUsed(slots[i := s]) == CountUsed(slots) + (if s.Used? then 1 else 0) - (if slots[i].Used? then 1 else 0)
  {
    if i > 0 {
      CountUpdate(slots[1..], i - 1, s);
      assert slots[i := s][1..] == slots[1..][i - 1 := s];
    } else {
      assert slots[0 := s][1..] == slots[1..];
    }
  }

  lemma {:induction false} CountFull(slots: seq<Slot>)
    ensures CountUsed(slots) == |slots| <==> forall i :: 0 <= i < |slots| ==> slots[i].Used?
  {
    if slots != [] {
      CountFull(slots[1..]);
      assert forall i :: 1 <= i < |slots| ==> slots[i] == slots[1..][i - 1];
      assert forall i :: 0 <= i < |slots| - 1 ==> slots[1..][i] == slots[i + 1];
    }
  }

  // --------------------------------------------------------------- operations

  datatype Op = Put(key: Key, value: Bytes) | Delete(dkey: Key) | Get(gkey: Key, room: nat) | Count

  datatype Answer =
    | Done | Value(copied: Bytes, len: nat) | Number(n: nat)
    | NotFound | Full | Invalid | KeyTooLong | ValueTooBig

  /** A value as a caller with a buffer of `room` bytes gets it, with its full length. */
  function Copied(value: Bytes, room: nat): Answer {
    Value(if |value| <= room then value else value[..room], |value|)
  }

  datatype Table = Table(slots: seq<Slot>, entryCount: int)

  function Apply(hash: Key -> nat, t: Table, op: Op): (Table, Answer)
    requires t.slots != []
  {
    match op
    case Put(key, value) =>
      if |key| > MAX_KEY_LEN then (t, KeyTooLong)
      else if |value| > MAX_VALUE_LEN then (t, ValueTooBig)
      else (match Lookup(hash, t.slots, key)
            case At(i) => (t.(slots := t.slots[i := Used(key, value)]), Done)
            case Absent(reuse) =>
              if reuse < 0 || t.entryCount >= |t.slots| then (t, Full)
              else (Table(t.slots[reuse := Used(key, value)], t.entryCount + 1), Done))
    case Delete(key) =>
      if |key| > MAX_KEY_LEN then (t, Invalid)
      else (match Lookup(hash, t.slots, key)
            case At(i) => (Table(t.slots[i := Deleted], t.entryCount - 1), Done)
            case Absent(_) => (t, NotFound))
    case Get(key, room) =>
      if |key| > MAX_KEY_LEN || room == 0 then (t, Invalid)
      else (match Lookup(hash, t.slots, key)
            case At(i) => (t, Copied(t.slots[i].value, room))
            case Absent(_) => (t, NotFound))
    case Count => (t, if t.entryCount >= 0 then Number(t.entryCount) else Invalid)
  }

  /** The same operations on a finite map that can hold `capacity` keys, of up to 14 bytes
      like its values. */
  ghost function Model(m: map<Key, Bytes>, capacity: nat, op: Op): (map<Key, Bytes>, Answer) {
    match op
    case Put(key, value) =>
      if |key| > 14 then (m, KeyTooLong)
      else if |value| > 14 then (m, ValueTooBig)
      else if key !in m && |m| == capacity then (m, Full)
      else (m[key := value], Done)
    case Delete(key) =>
      if |key| > 14 then (m, Invalid)
      else if key in m then (m - {key}, Done) else (m, NotFound)
    case Get(key, room) =>
      if |key| > 14 || room == 0 then (m, Invalid)
      else if key in m then (m, Value(m[key][..Min(room, |m[key]|)], |m[key]|)) else (m, NotFound)
    case Count => (m, Number(|m|))
  }

  ghost predicate TableOk(hash: Key -> nat, t: Table) {
    Valid(hash, t.slots) && t.entryCount == CountUsed(t.slots)
  }

  lemma {:induction false} CountIsSize(slots: seq<Slot>)
    requires UniqueKeys(slots)
    ensures |Keys(slots)| == CountUsed(slots)
    ensures |Contents(slots)| == CountUsed(slots)
  {
    assert Contents(slots).Keys == Keys(slots);
    if slots != [] {
      var rest := slots[1..];
      assert forall i :: 0 <= i < |rest| ==> rest[i] == slots[i + 1];
      CountIsSize(rest);
      HeadIsNew(slots);
    }
  }

  lemma HeadIsNew(slots: seq<Slot>)
    requires UniqueKeys(slots) && slots != []
    ensures slots[0].Used? ==> slots[0].key !in Keys(slots[1..])
    ensures Keys(slots) == Keys(slots[1..]) + if slots[0].Used? then {slots[0].key} else {}
  {
    var rest := slots[1..];
    forall k | k in Keys(rest) ensures k in Keys(slots) && (slots[0].Used? ==> k != slots[0].key) {
      var i := IndexOf(rest, k);
      assert slots[i + 1].Used? && slots[i + 1].key == k;
    }
    forall k | k in Keys(slots) ensures k in Keys(rest) || (slots[0].Used? && k == slots[0].key) {
      var i := IndexOf(slots, k);
      if i > 0 { assert rest[i - 1].Used? && rest[i - 1].key == k; }
    }
  }

  // -------------------------------------------------------------- refinement

  /** Overwriting the slot a key was found in. */
  lemma StoreAtFound(hash: Key -> nat, slots: seq<Slot>, key: Key, value: Bytes)
    requires Valid(hash, slots) && Lookup(hash, slots, key).At?
    ensures var after := slots[Lookup(hash, slots, key).i := Used(key, value)];
            Valid(hash, after) && Contents(after) == Contents(slots)[key := value]
  {
    var i := Lookup(hash, slots, key).i;
    var after := slots[i := Used(key, value)];
    forall k | 0 <= k < |after| ensures Reachable(hash, after, k) {
      assert Reachable(hash, slots, k);
    }
    ContentsOfUpdate(slots, after, i);
  }

  /** Filling the slot offered to a key that is not there: every live key stays
      reachable, because the slot was not live. */
  lemma StoreAtOffered(hash: Key -> nat, slots: seq<Slot>, key: Key, value: Bytes)
    requires Valid(hash, slots) && Lookup(hash, slots, key).Absent? && Lookup(hash, slots, key).reuse >= 0
    ensures var after := slots[Lookup(hash, slots, key).reuse := Used(key, value)];
            Valid(hash, after) && Contents(after) == Contents(slots)[key := value]
  {
    var i := Lookup(hash, slots, key).reuse;
    var after := slots[i := Used(key, value)];
    ReuseOffered(hash, slots, key);
    LookupIsMembership(hash, slots, key);
    forall k | 0 <= k < |slots| && slots[k].Used? ensures slots[k].key != key {
      LiveIsIn(slots, k);
    }
    forall k | 0 <= k < |after| ensures Reachable(hash, after, k) {
      assert Reachable(hash, slots, k);
    }
    ContentsOfUpdate(slots, after, i);
  }

  /** Leaving a tombstone keeps every other key reachable. */
  lemma TombstoneAt(hash: Key -> nat, slots: seq<Slot>, key: Key)
    requires Valid(hash, slots) && Lookup(hash, slots, key).At?
    ensures var after := slots[Lookup(hash, slots, key).i := Deleted];
            Valid(hash, after) && Contents(after) == Contents(slots) - {key}
  {
    var i := Lookup(hash, slots, key).i;
    var after := slots[i := Deleted];
    forall k | 0 <= k < |after| ensures Reachable(hash, after, k) {
      assert Reachable(hash, slots, k);
    }
    ContentsOfUpdate(slots, after, i);
  }

  /** The map with the key of the old slot dropped and that of the new one set. */
  ghost function SlotReplaced(m: map<Key, Bytes>, old_: Slot, new_: Slot): map<Key, Bytes> {
    var rest := m - (if old_.Used? then {old_.key} else {});
    if new_.Used? then rest[new_.key := new_.value] else rest
  }

  /** One slot changed: the map changes at the old and the new key of that slot. */
  lemma ContentsOfUpdate(slots: seq<Slot>, after: seq<Slot>, i: nat)
    requires i < |slots| == |after| && after == slots[i := after[i]]
    requires UniqueKeys(slots) && UniqueKeys(after)
    ensures Contents(after) == SlotReplaced(Contents(slots), slots[i], after[i])
  {
    var m', goal := Contents(after), SlotReplaced(Contents(slots), slots[i], after[i]);
    forall k | k in m' ensures k in goal && goal[k] == m'[k] {
      KeyWasThere(slots, after, i, k);
    }
    forall k | k in goal ensures k in m' {
      KeyIsThere(slots, after, i, k);
    }
  }

  lemma KeyIsThere(slots: seq<Slot>, after: seq<Slot>, i: nat, k: Key)
    requires i < |slots| == |after| && after == slots[i := after[i]]
    requires UniqueKeys(slots) && UniqueKeys(after) && k in SlotReplaced(Contents(slots), slots[i], after[i])
    ensures k in Contents(after)
  {
    if after[i].Used? && k == after[i].key {
      LiveIsIn(after, i);
    } else {
      LiveIsIn(after, IndexOf(slots, k));
    }
  }

  lemma KeyWasThere(slots: seq<Slot>, after: seq<Slot>, i: nat, k: Key)
    requires i < |slots| == |after| && after == slots[i := after[i]]
    requires UniqueKeys(slots) && UniqueKeys(after) && k in Contents(after)
    ensures var goal := SlotReplaced(Contents(slots), slots[i], after[i]); k in goal && goal[k] == Contents(after)[k]
  {
    var p := IndexOf(after, k);
    LiveIsIn(after, p);
    if p != i { LiveIsIn(slots, p); }
  }

  ghost predicate Refines(hash: Key -> nat, t: Table, op: Op)
    requires t.slots != []
  {
    var (t', answer) := Apply(hash, t, op);
    && TableOk(hash, t') && |t'.slots| == |t.slots|
    && Model(Contents(t.slots), |t.slots|, op) == (Contents(t'.slots), answer)
  }

  lemma PutRefines(hash: Key -> nat, t: Table, key: Key, value: Bytes)
    requires TableOk(hash, t)
    ensures Refines(hash, t, Put(key, value))
  {
    LookupIsMembership(hash, t.slots, key);
    if Lookup(hash, t.slots, key).At? {
      OverwriteRefines(hash, t, key, value);
    } else {
      FillRefines(hash, t, key, value);
    }
  }

  lemma OverwriteRefines(hash: Key -> nat, t: Table, key: Key, value: Bytes)
    requires TableOk(hash, t) && Lookup(hash, t.slots, key).At?
    ensures Refines(hash, t, Put(key, value))
  {
    LookupIsMembership(hash, t.slots, key);
    StoreAtFound(hash, t.slots, key, value);
    CountUpdate(t.slots, Lookup(hash, t.slots, key).i, Used(key, value));
  }

  lemma FillRefines(hash: Key -> nat, t: Table, key: Key, value: Bytes)
    requires TableOk(hash, t) && Lookup(hash, t.slots, key).Absent?
    ensures Refines(hash, t, Put(key, value))
  {
    CountIsSize(t.slots);
    LookupIsMembership(hash, t.slots, key);
    ReuseOffered(hash, t.slots, key);
    CountFull(t.slots);
    var reuse := Lookup(hash, t.slots, key).reuse;
    if reuse >= 0 {
      StoreAtOffered(hash, t.slots, key, value);
      CountUpdate(t.slots, reuse, Used(key, value));
    }
  }

  lemma DeleteRefines(hash: Key -> nat, t: Table, key: Key)
    requires TableOk(hash, t)
    ensures Refines(hash, t, Delete(key))
  {
    LookupIsMembership(hash, t.slots, key);
    var r := Lookup(hash, t.slots, key);
    if r.At? {
      TombstoneAt(hash, t.slots, key);
      CountUpdate(t.slots, r.i, Deleted);
    }
  }

  lemma GetRefines(hash: Key -> nat, t: Table, key: Key, room: nat)
    requires TableOk(hash, t)
    ensures Refines(hash, t, Get(key, room))
  {
    LookupIsMembership(hash, t.slots, key);
    var r := Lookup(hash, t.slots, key);
    if r.At? { CutToRoom(t.slots[r.i].value, room); }
  }

  lemma CutToRoom(value: Bytes, room: nat)
    ensures Copied(value, room) == Value(value[..Min(room, |value|)], |value|)
  {}

  /** Every operation keeps the table in order, and does and answers what the
      same operation does on a map that can hold as many keys as there are slots:
      FULL exactly when the key is absent and no slot is left. */
  lemma StepRefines(hash: Key -> nat, t: Table, op: Op)
    requires TableOk(hash, t)
    ensures Refines(hash, t, op)
  {
    match op
    case Put(key, value) => PutRefines(hash, t, key, value);
    case Delete(key) => DeleteRefines(hash, t, key);
    case Get(key, room) => GetRefines(hash, t, key, room);
    case Count => CountIsSize(t.slots);
  }

  lemma StepKeepsOk(hash: Key -> nat, t: Table, op: Op)
    requires TableOk(hash, t)
    ensures TableOk(hash, Apply(hash, t, op).0)
  {
    StepRefines(hash, t, op);
  }

  function Run(hash: Key -> nat, t: Table, ops: seq<Op>): (Table, seq<Answer>)
    requires t.slots != []
    decreases ops
  {
    if ops == [] then (t, []) else
    var (next, answer) := Apply(hash, t, ops[0]);
    var (end, answers) := Run(hash, next, ops[1..]);
    (end, [answer] + answers)
  }

  ghost function RunModel(m: map<Key, Bytes>, capacity: nat, ops: seq<Op>): (map<Key, Bytes>, seq<Answer>)
    decreases ops
  {
    if ops == [] then (m, []) else
    var (next, answer) := Model(m, capacity, ops[0]);
    var (end, answers) := RunModel(next, capacity, ops[1..]);
    (end, [answer] + answers)
  }

  /** Over any run, from any table in order: the answers are those of the map. */
  lemma {:induction false} RunRefines(hash: Key -> nat, t: Table, ops: seq<Op>)
    requires TableOk(hash, t)
    ensures TableOk(hash, Run(hash, t, ops).0)
    ensures RunModel(Contents(t.slots), |t.slots|, ops) == (Contents(Run(hash, t, ops).0.slots), Run(hash, t, ops).1)
    decreases ops
  {
    if ops != [] {
      StepRefines(hash, t, ops[0]);
      RunRefines(hash, Apply(hash, t, ops[0]).0, ops[1..]);
    }
  }

  /** What opening a new namespace writes. */
  function Blank(n: nat): Table {
    Table(seq(n, _ => Free), 0)
  }

  lemma {:induction false} BlankIsEmpty(hash: Key -> nat, n: nat)
    requires n > 0
    ensures TableOk(hash, Blank(n)) && Contents(Blank(n).slots) == map[]
  {
    NoneUsed(Blank(n).slots);
  }

  lemma {:induction false} NoneUsed(slots: seq<Slot>)
    requires forall i :: 0 <= i < |slots| ==> !slots[i].Used?
    ensures CountUsed(slots) == 0
  {
    if slots != [] { NoneUsed(slots[1..]); }
  }

  /** From a new namespace, any run of operations is a run on the empty map. */
  lemma NamespaceIsMap(hash: Key -> nat, n: nat, ops: seq<Op>)
    requires n > 0
    ensures RunModel(map[], n, ops) == (Contents(Run(hash, Blank(n), ops).0.slots), Run(hash, Blank(n), ops).1)
  {
    BlankIsEmpty(hash, n);
    RunRefines(hash, Blank(n), ops);
  }

  // ---------------------------------------------------------------- in place

  class Namespace {
    const hash: Key -> nat
    const slots: array<Slot>
    var entryCount: int

    ghost predicate Ok() reads this, slots {
      slots.Length > 0 && TableOk(hash, State())
    }

    ghost function State(): Table reads this, slots {
      Table(slots[..], entryCount)
    }

    constructor (hash: Key -> nat, n: nat)
      requires n > 0
      ensures Ok() && fresh(slots) && this.hash == hash
      ensures State() == Blank(n)
    {
      this.hash := hash;
      slots := new Slot[n](_ => Free);
      entryCount := 0;
      new;
      assert slots[..] == Blank(n).slots;
      BlankIsEmpty(hash, n);
    }

    method FindEntry(key: Key) returns (idx: int, freeSlot: int)
      requires Ok()
      ensures match Lookup(hash, slots[..], key)
              case At(i) => idx == i
              case Absent(reuse) => idx == -1 && freeSlot == reuse
    {
      var maxEntries := slots.Length;
      var start := Start(hash, key, maxEntries);
      var i := start;
      ghost var j, table := 0, slots[..];
      freeSlot := -1;
      while true
        invariant 0 <= j < maxEntries && i == Probe(start, j, maxEntries)
        invariant -1 <= freeSlot < maxEntries
        invariant Lookup(hash, table, key) == Find(table, start, key, j, freeSlot)
        decreases maxEntries - j
      {
        var entry := slots[i];
        assert entry == table[i];
        if entry.Free? {
          if freeSlot < 0 { freeSlot := i; }
          return -1, freeSlot;
        } else if entry.Deleted? {
          if freeSlot < 0 { freeSlot := i; }
        } else if entry.key == key {
          return i, freeSlot;
        }
        NextProbe(start, j, maxEntries);
        i := (i + 1) % maxEntries;
        j := j + 1;
        if i == start { break; }
      }
      return -1, freeSlot;
    }

    method Put(key: Key, value: Bytes) returns (answer: Answer)
      requires Ok()
      modifies this, slots
      ensures Ok() && (State(), answer) == Apply(hash, old(State()), Op.Put(key, value))
    {
      StepKeepsOk(hash, State(), Op.Put(key, value));
      if |key| > MAX_KEY_LEN { return KeyTooLong; }
      if |value| > MAX_VALUE_LEN { return ValueTooBig; }
      var idx, freeSlot := FindEntry(key);
      if idx >= 0 {
        slots[idx] := Used(key, value);
      } else {
        if freeSlot == -1 { return Full; }
        if entryCount >= slots.Length { return Full; }
        slots[freeSlot] := Used(key, value);
        entryCount := entryCount + 1;
      }
      return Done;
    }

    method Delete(key: Key) returns (answer: Answer)
      requires Ok()
      modifies this, slots
      ensures Ok() && (State(), answer) == Apply(hash, old(State()), Op.Delete(key))
    {
      StepKeepsOk(hash, State(), Op.Delete(key));
      if |key| > MAX_KEY_LEN { return Invalid; }
      var idx, _ := FindEntry(key);
      if idx < 0 { return NotFound; }
      slots[idx] := Deleted;
      entryCount := entryCount - 1;
      return Done;
    }

    method Get(key: Key, room: nat) returns (answer: Answer)
      requires Ok()
      ensures answer == Apply(hash, State(), Op.Get(key, room)).1
      ensures answer == Model(Contents(slots[..]), slots.Length, Op.Get(key, room)).1
    {
      StepRefines(hash, State(), Op.Get(key, room));
      if |key| > MAX_KEY_LEN || room == 0 { return Invalid; }
      var idx, _ := FindEntry(key);
      if idx < 0 { return NotFound; }
      var value := slots[idx].value;
      var len := if |value| > room then room else |value|;
      return Value(value[..len], |value|);
    }

    method Count() returns (n: int)
      requires Ok()
      ensures n == |Contents(slots[..])|
    {
      CountIsSize(slots[..]);
      return entryCount;
    }
  }
}
