/**
 The single-producer single-consumer ring.

 `Machine` interleaves the individual loads and stores of one producer and one
 consumer: an index is loaded or stored in one step, and an item is copied one
 byte at a time, so a slot can be seen half written. Both the copying calls
 (push, pop) and the zero-copy calls (acquire/commit, peek/release) are there.
 `Ring` is the same queue used by one thread, updated in place.
 */
module Spsc {

  type Byte = bv8
  type Item = seq<Byte>

  // ------------------------------------------------------------ the index step

  /** Bitwise and. */
  function And(a: nat, b: nat): (r: nat)
    decreases a
  {
    if a == 0 || b == 0 then 0 else 2 * And(a / 2, b / 2) + if a % 2 == 1 && b % 2 == 1 then 1 else 0
  }

  predicate PowerOfTwo(n: nat) {
    n == 1 || (n > 0 && n % 2 == 0 && PowerOfTwo(n / 2))
  }

  lemma {:induction false} AndSelf(n: nat)
    ensures And(n, n) == n
  {
    if n > 0 { AndSelf(n / 2); }
  }

  /** The initialiser's test accepts exactly the powers of two. */
  lemma {:induction false} TestIsPower(n: nat)
    requires n > 0
    ensures And(n, n - 1) == 0 <==> PowerOfTwo(n)
  {
    if n > 1 && n % 2 == 0 {
      assert (n - 1) / 2 == n / 2 - 1;
      TestIsPower(n / 2);
    } else if n > 1 {
      assert (n - 1) / 2 == n / 2;
      AndSelf(n / 2);
    }
  }

  /** Masking a number up to the capacity wraps at the capacity. */
  lemma {:induction false} MaskIsWrap(x: nat, capacity: nat)
    requires PowerOfTwo(capacity) && x <= capacity
    ensures And(x, capacity - 1) == if x == capacity then 0 else x
  {
    if capacity > 1 && x > 0 {
      assert (capacity - 1) / 2 == capacity / 2 - 1;
      MaskIsWrap(x / 2, capacity / 2);
    }
  }

  /** One index further: (index + 1) & mask. The sum stays within 32 bits. */
  function Next(index: nat, capacity: nat): (r: nat)
    requires PowerOfTwo(capacity) && index < capacity
    ensures r < capacity && r == if index + 1 == capacity then 0 else index + 1
  {
    MaskIsWrap(index + 1, capacity);
    And(index + 1, capacity - 1)
  }

  /** What the initialiser demands. */
  predicate Accepted(capacity: nat, itemSize: nat) {
    capacity != 0 && itemSize != 0 && And(capacity, capacity - 1) == 0
  }

  function Pow2(k: nat): (r: nat)
    ensures r > 0
  {
    if k == 0 then 1 else 2 * Pow2(k - 1)
  }

  lemma {:induction false} Pow2IsPower(k: nat)
    ensures PowerOfTwo(Pow2(k))
  {
    if k > 0 { Pow2IsPower(k - 1); }
  }

  lemma {:induction false} PowerIsPow2(n: nat) returns (k: nat)
    requires PowerOfTwo(n)
    ensures n == Pow2(k)
  {
    if n == 1 {
      k := 0;
    } else {
      k := PowerIsPow2(n / 2);
      k := k + 1;
    }
  }

  /** It accepts 2^k slots of any size but 0. */
  lemma AcceptedIff(capacity: nat, itemSize: nat)
    ensures Accepted(capacity, itemSize) <==> itemSize >= 1 && exists k :: capacity == Pow2(k)
  {
    if capacity > 0 { TestIsPower(capacity); }
    if capacity > 0 && PowerOfTwo(capacity) {
      var k := PowerIsPow2(capacity);
    }
    forall k | capacity == Pow2(k) ensures PowerOfTwo(capacity) { Pow2IsPower(k); }
  }

  /** Slot of the j-th item counted from `tail`. */
  function Slot(tail: nat, j: nat, capacity: nat): (r: nat)
    requires tail < capacity && j <= capacity
    ensures r < capacity
    ensures j < capacity && r == tail ==> j == 0
  {
    if tail + j < capacity then tail + j else tail + j - capacity
  }

  // ------------------------------------------------------------ interleaving

  datatype Producer =
    | Outside
    | LoadedHead(head: nat, item: Item)              // head read, tail not yet
    | Writing(head: nat, item: Item, done: nat)      // room seen, bytes copied so far
    | Acquired(slot: nat, item: Item)                // zero-copy: holds the slot's address

  datatype Consumer =
    | Away
    | LoadedTail(tail: nat)                          // tail read, head not yet
    | Reading(tail: nat, got: Item)                  // item seen, bytes copied so far
    | Peeking(slot: nat)                             // zero-copy: holds the slot's address

  /** Shared memory, both program counters, and the history of completed calls. */
  datatype Machine = Machine(
    capacity: nat, itemSize: nat,
    head: nat, tail: nat, buffer: seq<Item>,
    producer: Producer, consumer: Consumer,
    pushed: seq<Item>, popped: seq<Item>)

  function Start(capacity: nat, itemSize: nat): (s: Machine)
    requires Accepted(capacity, itemSize)
    ensures Shaped(s)
  {
    TestIsPower(capacity);
    Machine(capacity, itemSize, 0, 0, seq(capacity, _ => seq(itemSize, _ => 0)), Outside, Away, [], [])
  }

  datatype Action =
    | BeginPush(item: Item)
    | LoadTail(zeroCopy: bool)   // the full test
    | WriteByte
    | FillByte(at: nat, b: Byte) // in-place construction of an acquired slot
    | StoreHead                  // end of push, or commit
    | BeginPop
    | LoadHead(zeroCopy: bool)   // the empty test
    | ReadByte
    | StoreTail                  // end of pop, or release

  predicate Shaped(s: Machine) {
    && PowerOfTwo(s.capacity) && s.head < s.capacity && s.tail < s.capacity
    && |s.buffer| == s.capacity
    && (forall k :: 0 <= k < s.capacity ==> |s.buffer[k]| == s.itemSize)
    && (match s.producer
        case Outside => true
        case LoadedHead(h, item) => h < s.capacity && |item| == s.itemSize
        case Writing(h, item, done) => h < s.capacity && done <= |item| == s.itemSize
        case Acquired(slot, item) => slot < s.capacity && |item| == s.itemSize)
    && (match s.consumer
        case Away => true
        case LoadedTail(t) => t < s.capacity
        case Reading(t, got) => t < s.capacity && |got| <= s.itemSize
        case Peeking(slot) => slot < s.capacity)
  }

  predicate Enabled(s: Machine, a: Action) {
    match a
    case BeginPush(item) => s.producer.Outside? && |item| == s.itemSize
    case LoadTail(_) => s.producer.LoadedHead?
    case WriteByte => s.producer.Writing? && s.producer.done < s.itemSize
    case FillByte(at, _) => s.producer.Acquired? && at < s.itemSize
    case StoreHead => s.producer.Acquired? || (s.producer.Writing? && s.producer.done == s.itemSize)
    case BeginPop => s.consumer.Away?
    case LoadHead(_) => s.consumer.LoadedTail?
    case ReadByte => s.consumer.Reading? && |s.consumer.got| < s.itemSize
    case StoreTail => s.consumer.Peeking? || (s.consumer.Reading? && |s.consumer.got| == s.itemSize)
  }

  /** The j-th item inside lies in the j-th slot from the tail. */
  ghost predicate Holds(s: Machine, j: nat)
    requires Shaped(s) && s.popped <= s.pushed && j < |s.pushed| - |s.popped| < s.capacity
  {
    s.buffer[Slot(s.tail, j, s.capacity)] == s.pushed[|s.popped| + j]
  }

  /** The invariant over every interleaving. With n = |pushed| - |popped| items
      inside, slots tail, tail+1, .., tail+n-1 hold them and head is slot n. */
  ghost predicate Inv(s: Machine) {
    && Shaped(s)
    && s.popped <= s.pushed
    && var n := |s.pushed| - |s.popped|;
    && n < s.capacity
    && s.head == Slot(s.tail, n, s.capacity)
    && (forall j :: 0 <= j < n ==> Holds(s, j))
    && (match s.producer
        case Outside => true
        case LoadedHead(h, _) => h == s.head
        case Writing(h, item, done) => h == s.head && n + 1 < s.capacity && s.buffer[h][..done] == item[..done]
        case Acquired(slot, item) => slot == s.head && n + 1 < s.capacity && s.buffer[slot] == item)
    && (match s.consumer
        case Away => true
        case LoadedTail(t) => t == s.tail
        case Reading(t, got) => t == s.tail && n > 0 && got <= s.buffer[t]
        case Peeking(slot) => slot == s.tail && n > 0)
  }

  function Do(s: Machine, a: Action): (r: Machine)
    requires Shaped(s) && Enabled(s, a)
    ensures Shaped(r)
  {
    match a
    case BeginPush(item) => s.(producer := LoadedHead(s.head, item))
    case LoadTail(zeroCopy) =>
      var h := s.producer.head;
      if Next(h, s.capacity) == s.tail then s.(producer := Outside)  // full
      else if zeroCopy then s.(producer := Acquired(h, s.buffer[h]))
      else s.(producer := Writing(h, s.producer.item, 0))
    case WriteByte =>
      var Writing(h, item, done) := s.producer;
      s.(buffer := s.buffer[h := s.buffer[h][done := item[done]]], producer := Writing(h, item, done + 1))
    case FillByte(at, b) =>
      var h := s.producer.slot;
      var filled := s.buffer[h][at := b];
      s.(buffer := s.buffer[h := filled], producer := Acquired(h, filled))
    case StoreHead =>
      var h := if s.producer.Writing? then s.producer.head else s.head;  // commit reloads head
      s.(head := Next(h, s.capacity), producer := Outside, pushed := s.pushed + [s.producer.item])
    case BeginPop => s.(consumer := LoadedTail(s.tail))
    case LoadHead(zeroCopy) =>
      var t := s.consumer.tail;
      if t == s.head then s.(consumer := Away)  // empty
      else if zeroCopy then s.(consumer := Peeking(t))
      else s.(consumer := Reading(t, []))
    case ReadByte =>
      var Reading(t, got) := s.consumer;
      s.(consumer := Reading(t, got + [s.buffer[t][|got|]]))
    case StoreTail =>
      var t := if s.consumer.Reading? then s.consumer.tail else s.tail;  // release reloads tail
      var got := if s.consumer.Reading? then s.consumer.got else s.buffer[s.consumer.slot];
      s.(tail := Next(t, s.capacity), consumer := Away, popped := s.popped + [got])
  }

  /** A store into a slot that no item occupies disturbs none of them. */
  lemma FreeSlot(tail: nat, n: nat, capacity: nat)
    requires PowerOfTwo(capacity) && tail < capacity && n + 1 < capacity
    ensures Next(Slot(tail, n, capacity), capacity) == Slot(tail, n + 1, capacity) != tail
    ensures forall j :: 0 <= j < n ==> Slot(tail, j, capacity) != Slot(tail, n, capacity)
  {}

  /** The full test compares against the tail of this very moment. */
  lemma FullTest(tail: nat, n: nat, capacity: nat)
    requires PowerOfTwo(capacity) && tail < capacity && n < capacity
    ensures Next(Slot(tail, n, capacity), capacity) == tail <==> n + 1 == capacity
    ensures Slot(tail, n, capacity) == tail <==> n == 0
  {}

  lemma PushedKeepsHolding(s: Machine, t: Machine, j: nat)
    requires Shaped(s) && Shaped(t) && s.popped <= s.pushed <= t.pushed && t.popped == s.popped
    requires j < |s.pushed| - |s.popped| <= |t.pushed| - |t.popped| < s.capacity && Holds(s, j)
    requires t.capacity == s.capacity && t.tail == s.tail
    requires t.buffer[Slot(s.tail, j, s.capacity)] == s.buffer[Slot(s.tail, j, s.capacity)]
    ensures Holds(t, j)
  {}

  lemma LoadKeepsInv(s: Machine, a: Action)
    requires Inv(s) && Enabled(s, a) && (a.BeginPush? || a.LoadTail?)
    ensures Inv(Do(s, a))
  {
    var n := |s.pushed| - |s.popped|;
    forall j | 0 <= j < n ensures Holds(Do(s, a), j) {
      assert Holds(s, j);
    }
    if a.LoadTail? { FullTest(s.tail, n, s.capacity); }
  }

  /** Writing the free slot at head, one byte, leaves the items alone. */
  lemma WriteKeepsInv(s: Machine, a: Action)
    requires Inv(s) && Enabled(s, a) && (a.WriteByte? || a.FillByte?)
    ensures Inv(Do(s, a))
  {
    var n := |s.pushed| - |s.popped|;
    FreeSlot(s.tail, n, s.capacity);
    var t := Do(s, a);
    forall j | 0 <= j < n ensures Holds(t, j) {
      assert Holds(s, j);
      PushedKeepsHolding(s, t, j);
    }
    if a.WriteByte? {
      var Writing(h, item, done) := s.producer;
      assert t.buffer[h][..done + 1] == s.buffer[h][..done] + [item[done]] == item[..done + 1];
    }
  }

  /** Storing head publishes the slot as the last item. */
  lemma StoreHeadKeepsInv(s: Machine)
    requires Inv(s) && Enabled(s, StoreHead)
    ensures Inv(Do(s, StoreHead))
  {
    var n := |s.pushed| - |s.popped|;
    FreeSlot(s.tail, n, s.capacity);
    if s.producer.Writing? {
      assert s.buffer[s.head] == s.buffer[s.head][..s.itemSize] == s.producer.item[..s.itemSize] == s.producer.item;
    }
    var t := Do(s, StoreHead);
    forall j | 0 <= j < n + 1 ensures Holds(t, j) {
      if j < n {
        assert Holds(s, j);
        PushedKeepsHolding(s, t, j);
      }
    }
  }

  lemma FetchKeepsInv(s: Machine, a: Action)
    requires Inv(s) && Enabled(s, a) && (a.BeginPop? || a.LoadHead? || a.ReadByte?)
    ensures Inv(Do(s, a))
  {
    var n := |s.pushed| - |s.popped|;
    forall j | 0 <= j < n ensures Holds(Do(s, a), j) {
      assert Holds(s, j);
    }
    match a
    case LoadHead(_) => FullTest(s.tail, n, s.capacity);
    case ReadByte => OneByteMore(s.buffer[s.tail], s.consumer.got);
    case _ =>
  }

  lemma OneByteMore(slot: Item, got: Item)
    requires got <= slot && |got| < |slot|
    ensures got + [slot[|got|]] <= slot
  {}

  /** Storing tail retires the oldest item. */
  lemma StoreTailKeepsInv(s: Machine)
    requires Inv(s) && Enabled(s, StoreTail)
    ensures Inv(Do(s, StoreTail))
  {
    var n := |s.pushed| - |s.popped|;
    assert Holds(s, 0);
    var t := Do(s, StoreTail);
    if s.consumer.Reading? {
      assert s.consumer.got == s.buffer[s.tail][..s.itemSize] == s.buffer[s.tail];
    }
    assert t.popped == s.pushed[..|s.popped| + 1];
    forall j | 0 <= j < n - 1 ensures Holds(t, j) {
      assert Holds(s, j + 1);
    }
  }

  ghost predicate IsRun(run: seq<Machine>, acts: seq<Action>, capacity: nat, itemSize: nat) {
    && Accepted(capacity, itemSize)
    && |run| == |acts| + 1
    && run[0] == Start(capacity, itemSize)
    && forall k :: 0 <= k < |acts| ==> Shaped(run[k]) && Enabled(run[k], acts[k]) && run[k + 1] == Do(run[k], acts[k])
  }

  lemma StepKeepsInv(s: Machine, a: Action)
    requires Inv(s) && Enabled(s, a)
    ensures Inv(Do(s, a)) && Do(s, a).capacity == s.capacity
  {
    match a
    case BeginPush(_) | LoadTail(_) => LoadKeepsInv(s, a);
    case WriteByte | FillByte(_, _) => WriteKeepsInv(s, a);
    case StoreHead => StoreHeadKeepsInv(s);
    case BeginPop | LoadHead(_) | ReadByte => FetchKeepsInv(s, a);
    case StoreTail => StoreTailKeepsInv(s);
  }

  lemma {:induction false} RunKeepsInv(run: seq<Machine>, acts: seq<Action>, capacity: nat, itemSize: nat, k: nat)
    requires IsRun(run, acts, capacity, itemSize) && k < |run|
    ensures Inv(run[k]) && run[k].capacity == capacity
  {
    if k > 0 {
      RunKeepsInv(run, acts, capacity, itemSize, k - 1);
      StepKeepsInv(run[k - 1], acts[k - 1]);
    }
  }

  /** The slot a step of the producer writes, and the slot the consumer is reading. */
  ghost predicate Touching(s: Machine, a: Action)
    requires Enabled(s, a)
  {
    var written := match a case WriteByte => s.producer.head case FillByte(_, _) => s.producer.slot case _ => s.capacity;
    var read := match s.consumer case Reading(t, _) => t case Peeking(t) => t case _ => s.capacity + 1;
    written == read
  }

  /** Under every interleaving: items come out in the order they went in, none
      lost and none twice; at most capacity - 1 are inside; and the producer
      never writes the slot the consumer is reading. */
  lemma QueueSafety(run: seq<Machine>, acts: seq<Action>, capacity: nat, itemSize: nat, k: nat)
    requires IsRun(run, acts, capacity, itemSize) && k < |run|
    ensures run[k].popped <= run[k].pushed
    ensures |run[k].pushed| - |run[k].popped| <= capacity - 1
    ensures k < |acts| ==> !Touching(run[k], acts[k])
  {
    RunKeepsInv(run, acts, capacity, itemSize, k);
    FullTest(run[k].tail, |run[k].pushed| - |run[k].popped|, capacity);
  }

  /** The items of n slots from `tail` on, around the ring. */
  ghost function Window(buffer: seq<Item>, tail: nat, n: nat): (w: seq<Item>)
    requires tail < |buffer| && n <= |buffer|
    ensures |w| == n && forall j :: 0 <= j < n ==> w[j] == buffer[Slot(tail, j, |buffer|)]
  {
    seq(n, j requires 0 <= j < n => buffer[Slot(tail, j, |buffer|)])
  }

  /** Shared memory alone determines what is inside: the items from tail to head
      are exactly the pushed ones not yet popped. */
  ghost function Inside(s: Machine): seq<Item>
    requires Shaped(s)
  {
    var n := if s.tail <= s.head then s.head - s.tail else s.head + s.capacity - s.tail;
    Window(s.buffer, s.tail, n)
  }

  lemma InsideIsTheDifference(run: seq<Machine>, acts: seq<Action>, capacity: nat, itemSize: nat, k: nat)
    requires IsRun(run, acts, capacity, itemSize) && k < |run|
    ensures Shaped(run[k]) && run[k].pushed == run[k].popped + Inside(run[k])
  {
    RunKeepsInv(run, acts, capacity, itemSize, k);
    var s := run[k];
    forall j | 0 <= j < |s.pushed| - |s.popped| ensures Inside(s)[j] == s.pushed[|s.popped| + j] {
      assert Holds(s, j);
    }
  }

  // --------------------------------------------------------------- progress

  /** The full test is passed exactly when fewer than capacity - 1 items are inside at
      that moment: the producer then holds the slot at head, and else is out again. */
  lemma LoadTailOutcome(s: Machine, zeroCopy: bool)
    requires Inv(s) && Enabled(s, LoadTail(zeroCopy))
    ensures var room := |s.pushed| - |s.popped| < s.capacity - 1;
            Do(s, LoadTail(zeroCopy)) == s.(producer := if !room then Outside
                                                        else if zeroCopy then Acquired(s.head, s.buffer[s.head])
                                                        else Writing(s.head, s.producer.item, 0))
  {
    FullTest(s.tail, |s.pushed| - |s.popped|, s.capacity);
  }

  /** The empty test is passed exactly when something has been pushed and not popped. */
  lemma LoadHeadOutcome(s: Machine, zeroCopy: bool)
    requires Inv(s) && Enabled(s, LoadHead(zeroCopy))
    ensures Do(s, LoadHead(zeroCopy)) == s.(consumer := if s.pushed == s.popped then Away
                                                        else if zeroCopy then Peeking(s.tail) else Reading(s.tail, []))
  {
    FullTest(s.tail, |s.pushed| - |s.popped|, s.capacity);
  }

  predicate ByProducer(a: Action) {
    a.BeginPush? || a.LoadTail? || a.WriteByte? || a.FillByte? || a.StoreHead?
  }

  /** How many steps of its own a call still takes. */
  function PushLeft(s: Machine): int {
    match s.producer
    case Outside => 0
    case LoadedHead(_, _) => s.itemSize + 2
    case Writing(_, _, done) => s.itemSize - done + 1
    case Acquired(_, _) => 1
  }

  function PopLeft(s: Machine): int {
    match s.consumer
    case Away => 0
    case LoadedTail(_) => s.itemSize + 2
    case Reading(_, got) => s.itemSize - |got| + 1
    case Peeking(_) => 1
  }

  /** The step with which a call goes on. */
  function PushGoesOn(s: Machine, zeroCopy: bool): Action {
    match s.producer
    case LoadedHead(_, _) => LoadTail(zeroCopy)
    case Writing(_, _, done) => if done < s.itemSize then WriteByte else StoreHead
    case _ => StoreHead
  }

  function PopGoesOn(s: Machine, zeroCopy: bool): Action {
    match s.consumer
    case LoadedTail(_) => LoadHead(zeroCopy)
    case Reading(_, got) => if |got| < s.itemSize then ReadByte else StoreTail
    case _ => StoreTail
  }

  /** Neither side ever waits for the other: a call under way always has a next step, each
      such step brings it nearer to its end, and no step of the other side sets it back. */
  lemma WaitFree(s: Machine, zeroCopy: bool, other: Action)
    requires Inv(s) && Enabled(s, other)
    ensures PushLeft(s) >= 0 && PopLeft(s) >= 0
    ensures !s.producer.Outside? ==>
              Enabled(s, PushGoesOn(s, zeroCopy)) && PushLeft(Do(s, PushGoesOn(s, zeroCopy))) < PushLeft(s)
    ensures !s.consumer.Away? ==>
              Enabled(s, PopGoesOn(s, zeroCopy)) && PopLeft(Do(s, PopGoesOn(s, zeroCopy))) < PopLeft(s)
    ensures if ByProducer(other) then Do(s, other).consumer == s.consumer && PopLeft(Do(s, other)) == PopLeft(s)
            else Do(s, other).producer == s.producer && PushLeft(Do(s, other)) == PushLeft(s)
  {}

  /** These steps lead from s to t, nobody else acting. */
  ghost predicate Leads(s: Machine, acts: seq<Action>, t: Machine)
    decreases acts
  {
    if acts == [] then t == s else Shaped(s) && Enabled(s, acts[0]) && Leads(Do(s, acts[0]), acts[1..], t)
  }

  lemma {:induction false} LeadsOn(s: Machine, acts: seq<Action>, t: Machine, more: seq<Action>, u: Machine)
    requires Leads(s, acts, t) && Leads(t, more, u)
    ensures Leads(s, acts + more, u)
    decreases acts
  {
    if acts == [] {
      assert acts + more == more;
    } else {
      LeadsOn(Do(s, acts[0]), acts[1..], t, more, u);
      assert (acts + more)[0] == acts[0] && (acts + more)[1..] == acts[1..] + more;
    }
  }

  lemma LeadsTwo(s: Machine, a: Action, b: Action)
    requires Shaped(s) && Enabled(s, a) && Enabled(Do(s, a), b)
    ensures Leads(s, [a, b], Do(Do(s, a), b))
  {
    assert Leads(Do(Do(s, a), b), [], Do(Do(s, a), b));
    assert [a, b][1..] == [b] && [b][1..] == [];
    assert Leads(Do(s, a), [b], Do(Do(s, a), b));
  }

  lemma LeadsOne(s: Machine, a: Action)
    requires Shaped(s) && Enabled(s, a)
    ensures Leads(s, [a], Do(s, a))
  {
    assert [a][1..] == [];
    assert Leads(Do(s, a), [], Do(s, a));
  }

  /** What the other side sees is as it was. */
  ghost predicate ConsumerKept(s: Machine, t: Machine) {
    t.capacity == s.capacity && t.itemSize == s.itemSize && t.consumer == s.consumer && t.tail == s.tail && t.popped == s.popped
  }

  ghost predicate ProducerKept(s: Machine, t: Machine) {
    t.capacity == s.capacity && t.itemSize == s.itemSize && t.producer == s.producer && t.head == s.head && t.pushed == s.pushed
    && t.buffer == s.buffer
  }

  function Repeat(a: Action, n: nat): (r: seq<Action>)
    ensures |r| == n
  {
    if n == 0 then [] else [a] + Repeat(a, n - 1)
  }

  lemma {:induction false} CopiesIn(s: Machine) returns (t: Machine)
    requires Inv(s) && s.producer.Writing?
    ensures Inv(t) && Leads(s, Repeat(WriteByte, s.itemSize - s.producer.done), t) && ConsumerKept(s, t)
    ensures t.producer == s.producer.(done := s.itemSize) && t.head == s.head && t.pushed == s.pushed
    decreases s.itemSize - s.producer.done
  {
    if s.producer.done == s.itemSize {
      t := s;
    } else {
      WriteKeepsInv(s, WriteByte);
      t := CopiesIn(Do(s, WriteByte));
      var acts := Repeat(WriteByte, s.itemSize - s.producer.done);
      assert acts[0] == WriteByte && acts[1..] == Repeat(WriteByte, s.itemSize - s.producer.done - 1);
    }
  }

  lemma {:induction false} CopiesOut(s: Machine) returns (t: Machine)
    requires Inv(s) && s.consumer.Reading?
    ensures Inv(t) && Leads(s, Repeat(ReadByte, s.itemSize - |s.consumer.got|), t) && ProducerKept(s, t)
    ensures t.consumer.Reading? && t.consumer.tail == s.consumer.tail && |t.consumer.got| == s.itemSize
    ensures t.tail == s.tail && t.popped == s.popped
    decreases s.itemSize - |s.consumer.got|
  {
    if |s.consumer.got| == s.itemSize {
      t := s;
    } else {
      FetchKeepsInv(s, ReadByte);
      t := CopiesOut(Do(s, ReadByte));
      var acts := Repeat(ReadByte, s.itemSize - |s.consumer.got|);
      assert acts[0] == ReadByte && acts[1..] == Repeat(ReadByte, s.itemSize - |s.consumer.got| - 1);
    }
  }

  /** A push alone, from any state the queue can be in: it appends its item if fewer than
      capacity - 1 are inside, and else leaves everything as it was. */
  lemma PushAlone(s: Machine, item: Item) returns (acts: seq<Action>, t: Machine)
    requires Inv(s) && s.producer.Outside? && |item| == s.itemSize
    ensures Leads(s, acts, t) && Inv(t) && ConsumerKept(s, t) && t.producer == Outside
    ensures if |s.pushed| - |s.popped| < s.capacity - 1
            then t.pushed == s.pushed + [item] && acts == [BeginPush(item), LoadTail(false)] + Repeat(WriteByte, s.itemSize) + [StoreHead]
            else t == s && acts == [BeginPush(item), LoadTail(false)]
  {
    var begun := Do(s, BeginPush(item));
    LoadKeepsInv(s, BeginPush(item));
    LoadTailOutcome(begun, false);
    LoadKeepsInv(begun, LoadTail(false));
    LeadsTwo(s, BeginPush(item), LoadTail(false));
    acts, t := [BeginPush(item), LoadTail(false)], Do(begun, LoadTail(false));
    if |s.pushed| - |s.popped| < s.capacity - 1 {
      var entered := t;
      var filled := CopiesIn(entered);
      StoreHeadKeepsInv(filled);
      LeadsOne(filled, StoreHead);
      LeadsOn(s, acts, entered, Repeat(WriteByte, s.itemSize), filled);
      acts := acts + Repeat(WriteByte, s.itemSize);
      LeadsOn(s, acts, filled, [StoreHead], Do(filled, StoreHead));
      acts, t := acts + [StoreHead], Do(filled, StoreHead);
    }
  }

  /** A pop alone takes the oldest item, or reports an empty queue. */
  lemma PopAlone(s: Machine) returns (acts: seq<Action>, t: Machine)
    requires Inv(s) && s.consumer.Away?
    ensures Leads(s, acts, t) && Inv(t) && ProducerKept(s, t) && t.consumer == Away
    ensures if s.pushed != s.popped
            then |s.popped| < |s.pushed| && t.popped == s.popped + [s.pushed[|s.popped|]]
                 && acts == [BeginPop, LoadHead(false)] + Repeat(ReadByte, s.itemSize) + [StoreTail]
            else t == s && acts == [BeginPop, LoadHead(false)]
  {
    var begun := Do(s, BeginPop);
    FetchKeepsInv(s, BeginPop);
    LoadHeadOutcome(begun, false);
    FetchKeepsInv(begun, LoadHead(false));
    LeadsTwo(s, BeginPop, LoadHead(false));
    acts, t := [BeginPop, LoadHead(false)], Do(begun, LoadHead(false));
    if s.pushed != s.popped {
      var entered := t;
      var copied := CopiesOut(entered);
      StoreTailKeepsInv(copied);
      LeadsOne(copied, StoreTail);
      LeadsOn(s, acts, entered, Repeat(ReadByte, s.itemSize), copied);
      acts := acts + Repeat(ReadByte, s.itemSize);
      LeadsOn(s, acts, copied, [StoreTail], Do(copied, StoreTail));
      acts, t := acts + [StoreTail], Do(copied, StoreTail);
    }
  }

  /** Acquire, fill in place from byte k on, commit. */
  function Fills(item: Item, k: nat): (r: seq<Action>)
    requires k <= |item|
    decreases |item| - k
  {
    if k == |item| then [] else [FillByte(k, item[k])] + Fills(item, k + 1)
  }

  lemma {:induction false} FillsIn(s: Machine, item: Item, k: nat) returns (t: Machine)
    requires Inv(s) && s.producer.Acquired? && k <= |item| == s.itemSize && s.producer.item[..k] == item[..k]
    ensures Inv(t) && Leads(s, Fills(item, k), t) && ConsumerKept(s, t)
    ensures t.producer == Acquired(s.producer.slot, item) && t.head == s.head && t.pushed == s.pushed
    decreases |item| - k
  {
    if k == |item| {
      assert s.producer.item == item;
      t := s;
    } else {
      var a := FillByte(k, item[k]);
      WriteKeepsInv(s, a);
      var next := Do(s, a);
      assert next.producer.item[..k + 1] == item[..k] + [item[k]] == item[..k + 1];
      t := FillsIn(next, item, k + 1);
      assert Fills(item, k)[0] == a && Fills(item, k)[1..] == Fills(item, k + 1);
    }
  }

  /** The zero-copy pair alone appends what was written into the slot, whatever the slot
      held before. */
  lemma AcquireAlone(s: Machine, placeholder: Item, item: Item) returns (acts: seq<Action>, t: Machine)
    requires Inv(s) && s.producer.Outside? && |placeholder| == |item| == s.itemSize && |s.pushed| - |s.popped| < s.capacity - 1
    ensures Leads(s, acts, t) && Inv(t) && ConsumerKept(s, t) && t.producer == Outside && t.pushed == s.pushed + [item]
    ensures acts == [BeginPush(placeholder), LoadTail(true)] + Fills(item, 0) + [StoreHead]
  {
    var begun := Do(s, BeginPush(placeholder));
    LoadKeepsInv(s, BeginPush(placeholder));
    LoadTailOutcome(begun, true);
    LoadKeepsInv(begun, LoadTail(true));
    LeadsTwo(s, BeginPush(placeholder), LoadTail(true));
    var entered := Do(begun, LoadTail(true));
    var filled := FillsIn(entered, item, 0);
    StoreHeadKeepsInv(filled);
    LeadsOne(filled, StoreHead);
    acts := [BeginPush(placeholder), LoadTail(true)];
    LeadsOn(s, acts, entered, Fills(item, 0), filled);
    acts := acts + Fills(item, 0);
    LeadsOn(s, acts, filled, [StoreHead], Do(filled, StoreHead));
    acts, t := acts + [StoreHead], Do(filled, StoreHead);
  }

  /** And its counterpart takes the oldest item by its address. */
  lemma PeekAlone(s: Machine) returns (t: Machine)
    requires Inv(s) && s.consumer.Away? && s.pushed != s.popped
    ensures Leads(s, [BeginPop, LoadHead(true), StoreTail], t) && Inv(t) && ProducerKept(s, t) && t.consumer == Away
    ensures |s.popped| < |s.pushed| && t.popped == s.popped + [s.pushed[|s.popped|]]
  {
    var begun := Do(s, BeginPop);
    FetchKeepsInv(s, BeginPop);
    LoadHeadOutcome(begun, true);
    FetchKeepsInv(begun, LoadHead(true));
    var peeking := Do(begun, LoadHead(true));
    StoreTailKeepsInv(peeking);
    LeadsTwo(s, BeginPop, LoadHead(true));
    LeadsOne(peeking, StoreTail);
    LeadsOn(s, [BeginPop, LoadHead(true)], peeking, [StoreTail], Do(peeking, StoreTail));
    assert [BeginPop, LoadHead(true)] + [StoreTail] == [BeginPop, LoadHead(true), StoreTail];
    t := Do(peeking, StoreTail);
  }

  // ------------------------------------------------------------- one thread

  datatype Status = Ok | NoMemory | NotFound

  /** The queue as one thread sees it, slots written in place. */
  class Ring {
    const capacity: nat
    const buffer: array<Item>
    var head: nat
    var tail: nat

    ghost predicate Valid()
      reads this
    {
      PowerOfTwo(capacity) && capacity == buffer.Length && head < capacity && tail < capacity
    }

    ghost function Count(): nat
      requires Valid()
      reads this
      ensures Count() < capacity && head == Slot(tail, Count(), capacity)
    {
      if tail <= head then head - tail else head + capacity - tail
    }

    ghost function Contents(): (c: seq<Item>)
      requires Valid()
      reads this, buffer
      ensures |c| == Count()
    {
      Window(buffer[..], tail, Count())
    }

    constructor (slots: nat, itemSize: nat)
      requires Accepted(slots, itemSize)
      ensures Valid() && fresh(buffer) && capacity == slots && Contents() == []
    {
      TestIsPower(slots);
      capacity, head, tail := slots, 0, 0;
      buffer := new Item[slots](_ => seq(itemSize, _ => 0));
    }

    method Push(item: Item) returns (status: Status)
      requires Valid()
      modifies this`head, buffer
      ensures Valid()
      ensures status == if |old(Contents())| == capacity - 1 then NoMemory else Ok
      ensures Contents() == if status == Ok then old(Contents()) + [item] else old(Contents())
    {
      var nextHead := Next(head, capacity);
      if nextHead == tail { return NoMemory; }
      buffer[head] := item;
      head := nextHead;
      return Ok;
    }

    method Pop() returns (status: Status, item: Item)
      requires Valid()
      modifies this`tail
      ensures Valid()
      ensures status == if old(Contents()) == [] then NotFound else Ok
      ensures status == Ok ==> item == old(Contents())[0] && Contents() == old(Contents())[1..]
      ensures status != Ok ==> Contents() == old(Contents())
    {
      if tail == head { return NotFound, []; }
      item := buffer[tail];
      tail := Next(tail, capacity);
      return Ok, item;
    }

    /** The slot handed out is free: filling it in place changes no content, and
        the commit that follows appends whatever the slot then holds. */
    method PushAcquire() returns (slot: nat)
      requires Valid()
      ensures slot == capacity <==> |Contents()| == capacity - 1
      ensures slot != capacity ==> slot == head && forall j :: 0 <= j < Count() ==> Slot(tail, j, capacity) != slot
    {
      if Next(head, capacity) == tail { return capacity; }
      return head;
    }

    method PushCommit()
      requires Valid() && |Contents()| < capacity - 1
      modifies this`head
      ensures Valid() && Contents() == old(Contents() + [buffer[head]])
    {
      head := Next(head, capacity);
    }

    method PopPeek() returns (slot: nat)
      requires Valid()
      ensures slot == capacity <==> Contents() == []
      ensures slot != capacity ==> slot < capacity && buffer[slot] == Contents()[0]
    {
      if tail == head { return capacity; }
      return tail;
    }

    method PopRelease()
      requires Valid() && Contents() != []
      modifies this`tail
      ensures Valid() && Contents() == old(Contents())[1..]
    {
      tail := Next(tail, capacity);
    }
  }
}
