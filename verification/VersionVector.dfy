/**
 Sparse version vectors: at most `CAPACITY` entries, a missing entry reads as 0.

 The functions give the entry list each operation leaves; `VersionVector` holds
 the entries in an array and updates them in place.
 */
module VersionVectors {
  import opened Types

  /** One entry for each of the seven neighbours and one for the module itself. */
  const CAPACITY: nat := 8

  datatype Entry = Entry(id: ModuleId, seqNo: nat)

  ghost predicate Valid(v: seq<Entry>) {
    |v| <= CAPACITY && forall i, j :: 0 <= i < j < |v| ==> v[i].id != v[j].id
  }

  /** The position of a module's entry, or |v|. */
  function Find(v: seq<Entry>, id: ModuleId): (r: nat)
    ensures r <= |v| && (r < |v| ==> v[r].id == id)
    ensures forall k :: 0 <= k < r ==> v[k].id != id
  {
    FindBy(v, (e: Entry) => e.id, id)
  }

  function Lookup(v: seq<Entry>, id: ModuleId): nat {
    if Find(v, id) < |v| then v[Find(v, id)].seqNo else 0
  }

  /** A new module past the capacity is turned away. */
  function Set(v: seq<Entry>, id: ModuleId, n: nat): seq<Entry> {
    if Find(v, id) < |v| then v[Find(v, id) := Entry(id, n)]
    else if |v| >= CAPACITY then v
    else v + [Entry(id, n)]
  }

  predicate HasRoom(v: seq<Entry>, id: ModuleId) {
    Find(v, id) < |v| || |v| < CAPACITY
  }

  lemma FindAt(v: seq<Entry>, k: nat)
    requires Valid(v) && k < |v|
    ensures Find(v, v[k].id) == k && Lookup(v, v[k].id) == v[k].seqNo
  {}

  /** Setting changes the entry set, if there is room, and no other. */
  lemma LookupAfterSet(v: seq<Entry>, id: ModuleId, n: nat, x: ModuleId)
    requires Valid(v)
    ensures Valid(Set(v, id, n))
    ensures Lookup(Set(v, id, n), x) == if x == id && HasRoom(v, id) then n else Lookup(v, x)
  {
    var v', k, p := Set(v, id, n), Find(v, id), Find(v, x);
    if k < |v| || |v| < CAPACITY {
      assert v'[k] == Entry(id, n);
      FindAt(v', k);
      if p < |v| && x != id {
        assert v'[p] == v[p];
        FindAt(v', p);
      } else if x != id {
        assert Find(v', x) == |v'|;
      }
    }
  }

  // ------------------------------------------------------------------- order

  ghost predicate Leq(a: seq<Entry>, b: seq<Entry>) {
    forall id: ModuleId :: Lookup(a, id) <= Lookup(b, id)
  }

  lemma NotLeq(a: seq<Entry>, b: seq<Entry>, id: ModuleId)
    requires Lookup(a, id) > Lookup(b, id)
    ensures !Leq(a, b)
  {}

  datatype Order = Equal | Before | After | Concurrent

  /** The causal order: pointwise, missing entries as 0. */
  ghost function OrderOf(a: seq<Entry>, b: seq<Entry>): Order {
    if Leq(a, b) && Leq(b, a) then Equal
    else if Leq(b, a) then After
    else if Leq(a, b) then Before
    else Concurrent
  }

  /** It is enough to look at the entries either vector holds. */
  lemma LeqOnEntries(a: seq<Entry>, b: seq<Entry>)
    requires Valid(a)
    ensures Leq(a, b) <==> forall k :: 0 <= k < |a| ==> a[k].seqNo <= Lookup(b, a[k].id)
  {
    if forall k :: 0 <= k < |a| ==> a[k].seqNo <= Lookup(b, a[k].id) {
      forall id: ModuleId ensures Lookup(a, id) <= Lookup(b, id) {
        var k := Find(a, id);
        if k < |a| { assert a[k].seqNo <= Lookup(b, a[k].id); }
      }
    } else {
      var k :| 0 <= k < |a| && a[k].seqNo > Lookup(b, a[k].id);
      FindAt(a, k);
    }
  }

  // ------------------------------------------------------------------- merge

  /** Entry by entry of the remote vector. */
  function Merge(local: seq<Entry>, remote: seq<Entry>): seq<Entry> {
    if remote == [] then local else
    var before := Merge(local, remote[..|remote| - 1]);
    var e := remote[|remote| - 1];
    if e.seqNo > Lookup(before, e.id) then Set(before, e.id, e.seqNo) else before
  }

  lemma MergeOne(local: seq<Entry>, remote: seq<Entry>, i: nat)
    requires i < |remote|
    ensures var before, e := Merge(local, remote[..i]), remote[i];
            Merge(local, remote[..i + 1]) == if e.seqNo > Lookup(before, e.id) then Set(before, e.id, e.seqNo) else before
  {
    assert remote[..i + 1][..i] == remote[..i];
  }

  ghost function Ids(v: seq<Entry>): set<ModuleId> {
    set k | 0 <= k < |v| :: v[k].id
  }

  /** The modules a merge wants entries for. */
  ghost function Wanted(local: seq<Entry>, remote: seq<Entry>): set<ModuleId> {
    Ids(local) + set k | 0 <= k < |remote| && remote[k].seqNo > Lookup(local, remote[k].id) :: remote[k].id
  }

  ghost predicate IsMax(m: seq<Entry>, a: seq<Entry>, b: seq<Entry>) {
    forall id: ModuleId :: Lookup(m, id) == Max(Lookup(a, id), Lookup(b, id))
  }

  lemma {:induction false} IdsCounted(v: seq<Entry>)
    requires Valid(v)
    ensures |Ids(v)| == |v|
  {
    if v != [] {
      var w, last := v[..|v| - 1], v[|v| - 1];
      IdsCounted(w);
      forall id | id in Ids(v) ensures id in Ids(w) + {last.id} {
        var k :| 0 <= k < |v| && v[k].id == id;
        if k < |w| { assert w[k].id == id; }
      }
      forall id | id in Ids(w) ensures id in Ids(v) && id != last.id {
        var k :| 0 <= k < |w| && w[k].id == id;
        assert v[k].id == id;
      }
      assert Ids(v) == Ids(w) + {last.id};
    }
  }

  /** What a prefix of the remote entries has done. An entry is the maximum, or
      left as it was for want of room. */
  ghost predicate MergedTo(local: seq<Entry>, remote: seq<Entry>, m: seq<Entry>, id: ModuleId) {
    Lookup(m, id) == Max(Lookup(local, id), Lookup(remote, id))
    || (Lookup(m, id) == Lookup(local, id) && |m| == CAPACITY && id !in Ids(m))
  }

  lemma {:induction false} MergeStep(local: seq<Entry>, remote: seq<Entry>, id: ModuleId)
    requires Valid(local) && Valid(remote)
    ensures Valid(Merge(local, remote)) && Ids(local) <= Ids(Merge(local, remote))
    ensures MergedTo(local, remote, Merge(local, remote), id)
  {
    if remote != [] {
      var front, e := remote[..|remote| - 1], remote[|remote| - 1];
      var before, m := Merge(local, front), Merge(local, remote);
      MergeStep(local, front, id);
      MergeStep(local, front, e.id);
      FindAt(remote, |remote| - 1);
      LookupInFront(remote, id);
      LookupInFront(remote, e.id);
      LookupAfterSet(before, e.id, e.seqNo, id);
      IdsAfterSet(before, e.id, e.seqNo);
    }
  }

  lemma LookupInFront(v: seq<Entry>, id: ModuleId)
    requires Valid(v) && v != []
    ensures var last := v[|v| - 1];
            Lookup(v[..|v| - 1], id) == if id == last.id then 0 else Lookup(v, id)
  {
    var w, k := v[..|v| - 1], Find(v, id);
    FindAt(v, |v| - 1);
    if k < |w| {
      assert w[k] == v[k];
      FindAt(w, k);
    } else {
      assert Find(w, id) == |w|;
    }
  }

  lemma IdsAfterSet(v: seq<Entry>, id: ModuleId, n: nat)
    requires Valid(v)
    ensures Ids(Set(v, id, n)) == Ids(v) + if HasRoom(v, id) then {id} else {}
    ensures |v| <= |Set(v, id, n)|
  {
    var v', k := Set(v, id, n), Find(v, id);
    forall x | x in Ids(v) ensures x in Ids(v') {
      var p :| 0 <= p < |v| && v[p].id == x;
      assert v'[p].id == x;
    }
    if HasRoom(v, id) { assert v'[k].id == id; }
  }

  lemma {:induction false} OnlyWanted(local: seq<Entry>, remote: seq<Entry>)
    requires Valid(local) && Valid(remote)
    ensures Ids(Merge(local, remote)) <= Wanted(local, remote)
  {
    if remote != [] {
      var front, e := remote[..|remote| - 1], remote[|remote| - 1];
      var before := Merge(local, front);
      OnlyWanted(local, front);
      MergeStep(local, front, e.id);
      IdsAfterSet(before, e.id, e.seqNo);
      forall id | id in Wanted(local, front) ensures id in Wanted(local, remote) {
        if id !in Ids(local) {
          var k :| 0 <= k < |front| && front[k].seqNo > Lookup(local, front[k].id) && front[k].id == id;
          assert remote[k].id == id;
        }
      }
      if e.seqNo > Lookup(before, e.id) { assert e.id in Wanted(local, remote); }
    }
  }

  /** Merging is the pointwise maximum exactly when the modules it wants entries
      for fit. */
  lemma MergeIsMax(a: seq<Entry>, b: seq<Entry>)
    requires Valid(a) && Valid(b)
    ensures Valid(Merge(a, b))
    ensures IsMax(Merge(a, b), a, b) <==> |Wanted(a, b)| <= CAPACITY
  {
    var m := Merge(a, b);
    MergeStep(a, b, INVALID_MODULE_ID);
    IdsCounted(m);
    OnlyWanted(a, b);
    if IsMax(m, a, b) {
      forall id | id in Wanted(a, b) ensures id in Ids(m) {
        if id !in Ids(a) {
          var k :| 0 <= k < |b| && b[k].seqNo > Lookup(a, b[k].id) && b[k].id == id;
          FindAt(b, k);
          assert Lookup(m, id) > 0;
        }
      }
      SubsetSize(Wanted(a, b), Ids(m));
    } else {
      var id: ModuleId :| Lookup(m, id) != Max(Lookup(a, id), Lookup(b, id));
      MergeStep(a, b, id);
      assert b[Find(b, id)].id == id;
      SubsetSize(Ids(m) + {id}, Wanted(a, b));
    }
  }

  /** Whether or not they fit, merging never takes anything back ... */
  lemma MergeNeverLowers(a: seq<Entry>, b: seq<Entry>)
    requires Valid(a) && Valid(b)
    ensures Leq(a, Merge(a, b))
  {
    forall id: ModuleId ensures Lookup(a, id) <= Lookup(Merge(a, b), id) {
      MergeStep(a, b, id);
    }
  }

  /** ... and never goes past what is past both sides. */
  lemma MergeIsLeast(a: seq<Entry>, b: seq<Entry>, c: seq<Entry>)
    requires Valid(a) && Valid(b) && Leq(a, c) && Leq(b, c)
    ensures Leq(Merge(a, b), c)
  {
    forall id: ModuleId ensures Lookup(Merge(a, b), id) <= Lookup(c, id) {
      MergeStep(a, b, id);
      assert Lookup(a, id) <= Lookup(c, id) && Lookup(b, id) <= Lookup(c, id);
    }
  }

  /** With room, the merge is the least upper bound of the order that comparing
      decides: it is at or after both sides, and before whatever else is. */
  lemma MergeIsJoin(a: seq<Entry>, b: seq<Entry>, c: seq<Entry>)
    requires Valid(a) && Valid(b) && |Wanted(a, b)| <= CAPACITY
    ensures OrderOf(Merge(a, b), a) in {After, Equal} && OrderOf(Merge(a, b), b) in {After, Equal}
    ensures OrderOf(c, a) in {After, Equal} && OrderOf(c, b) in {After, Equal} ==> OrderOf(c, Merge(a, b)) in {After, Equal}
  {
    MergeIsMax(a, b);
    MergeNeverLowers(a, b);
    if Leq(a, c) && Leq(b, c) { MergeIsLeast(a, b, c); }
    forall id: ModuleId ensures Lookup(b, id) <= Lookup(Merge(a, b), id) {
      assert Lookup(Merge(a, b), id) == Max(Lookup(a, id), Lookup(b, id));
    }
  }

  // ---------------------------------------------------------------- in place

  class VersionVector {
    const entries: array<Entry>
    var count: nat

    ghost predicate Ok() reads this, entries {
      entries.Length == CAPACITY && count <= CAPACITY && Valid(entries[..count])
    }

    function View(): seq<Entry> reads this, entries
      requires count <= entries.Length
    {
      entries[..count]
    }

    constructor ()
      ensures Ok() && View() == [] && fresh(entries)
    {
      entries := new Entry[CAPACITY](_ => Entry(INVALID_MODULE_ID, 0));
      count := 0;
    }

    method Get(id: ModuleId) returns (n: nat)
      requires Ok()
      ensures n == Lookup(View(), id)
    {
      for i := 0 to count
        invariant forall k :: 0 <= k < i ==> entries[k].id != id
      {
        if entries[i].id == id {
          FindAt(View(), i);
          return entries[i].seqNo;
        }
      }
      return 0;
    }

    method Put(id: ModuleId, n: nat) returns (ok: bool)
      requires Ok()
      modifies this, entries
      ensures Ok() && View() == Set(old(View()), id, n)
      ensures ok == HasRoom(old(View()), id)
    {
      LookupAfterSet(View(), id, n, id);
      for i := 0 to count
        invariant forall k :: 0 <= k < i ==> entries[k].id != id
      {
        if entries[i].id == id {
          FindAt(View(), i);
          entries[i] := Entry(id, n);
          assert View() == Set(old(View()), id, n);
          return true;
        }
      }
      assert Find(View(), id) == |View()|;
      if count >= CAPACITY { return false; }
      entries[count] := Entry(id, n);
      count := count + 1;
      assert View() == Set(old(View()), id, n);
      return true;
    }

    /** A full vector does not keep a new module's number, though it is returned. */
    method Increment(id: ModuleId) returns (next: nat)
      requires Ok()
      modifies this, entries
      ensures Ok() && next == Lookup(old(View()), id) + 1
      ensures Lookup(View(), id) == if HasRoom(old(View()), id) then next else 0
      ensures forall x: ModuleId :: x != id ==> Lookup(View(), x) == Lookup(old(View()), x)
    {
      var current := Get(id);
      next := current + 1;
      forall x: ModuleId {
        LookupAfterSet(View(), id, next, x);
      }
      var _ := Put(id, next);
    }

    /** Both loops over the entries decide the order on all modules. */
    method Compare(other: VersionVector) returns (r: Order)
      requires Ok() && other.Ok()
      ensures r == OrderOf(View(), other.View())
    {
      var below, above := CompareEntries(other);
      var otherBelow, otherAbove := other.CompareEntries(this);
      var ours, theirs := !below && !otherAbove, !above && !otherBelow;
      if ours && theirs { return Equal; }
      if ours { return After; }
      if theirs { return Before; }
      return Concurrent;
    }

    /** Whether some entry held here is below, and some above, the other vector's. */
    method CompareEntries(other: VersionVector) returns (below: bool, above: bool)
      requires Ok() && other.Ok()
      ensures below ==> !Leq(other.View(), View())
      ensures above <==> !Leq(View(), other.View())
    {
      below, above := false, false;
      ghost var a, b := View(), other.View();
      for i := 0 to count
        invariant below ==> !Leq(b, a)
        invariant above ==> !Leq(a, b)
        invariant !above ==> forall k :: 0 <= k < i ==> a[k].seqNo <= Lookup(b, a[k].id)
      {
        var there := other.Get(entries[i].id);
        FindAt(a, i);
        if entries[i].seqNo < there { below := true; NotLeq(b, a, a[i].id); }
        if entries[i].seqNo > there { above := true; NotLeq(a, b, a[i].id); }
      }
      LeqOnEntries(a, b);
    }

    /** One entry of a merge. */
    method Raise(id: ModuleId, n: nat)
      requires Ok()
      modifies this, entries
      ensures Ok()
      ensures View() == if n > Lookup(old(View()), id) then Set(old(View()), id, n) else old(View())
    {
      var current := Get(id);
      if n > current {
        var _ := Put(id, n);
      }
    }

    method MergeFrom(remote: VersionVector)
      requires Ok() && remote.Ok() && (remote != this ==> remote.entries != entries)
      modifies this, entries
      ensures Ok() && View() == Merge(old(View()), old(remote.View()))
    {
      ghost var was, theirs := View(), remote.View();
      for i := 0 to remote.count
        invariant Ok() && remote.count == |theirs| && remote.View() == theirs
        invariant View() == Merge(was, theirs[..i])
      {
        MergeOne(was, theirs, i);
        FindAt(theirs, i);
        var e := remote.entries[i];
        assert e == theirs[i];
        Raise(e.id, e.seqNo);
      }
      assert theirs[..|theirs|] == theirs;
    }
  }
}
