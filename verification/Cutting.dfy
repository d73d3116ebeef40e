/**
 A message fed in pieces to something that takes it block by block: what reaches
 the state, and what is left in the buffer. The step that takes a block in can be
 any function on any state.
 */
module Cutting {

  const BLOCK: nat := 16

  type Bytes = seq<bv8>
  type Block = b: Bytes | |b| == BLOCK witness [0, 0, 0, 0, 0, 0, 0, 0, 0, 0, 0, 0, 0, 0, 0, 0]

  /** Takes one block into a state. */
  type Step<!V> = (V, Block) -> V

  /** Whole blocks while more than one block is left. */
  function Consume<V>(f: Step<V>, v: V, m: Bytes): (r: (V, Bytes))
    ensures |r.1| <= BLOCK
    decreases |m|
  {
    if |m| > BLOCK then Consume(f, f(v, m[..BLOCK]), m[BLOCK..]) else (v, m)
  }

  datatype Ctx<V> = Ctx(v: V, buf: Bytes)

  function Update<V>(f: Step<V>, c: Ctx<V>, data: Bytes): (r: Ctx<V>)
    requires |c.buf| <= BLOCK
    ensures |r.buf| <= BLOCK
  {
    var need := if |c.buf| > 0 then BLOCK - |c.buf| else 0;
    if |data| < need then c.(buf := c.buf + data) else
    var v := if |c.buf| > 0 then f(c.v, c.buf + data[..need]) else c.v;
    var (v', rest) := Consume(f, v, data[need..]);
    Ctx(v', rest)
  }

  function UpdateAll<V>(f: Step<V>, c: Ctx<V>, chunks: seq<Bytes>): (r: Ctx<V>)
    requires |c.buf| <= BLOCK
    ensures |r.buf| <= BLOCK
  {
    if chunks == [] then c else
    Update(f, UpdateAll(f, c, chunks[..|chunks| - 1]), chunks[|chunks| - 1])
  }

  function Concat(chunks: seq<Bytes>): Bytes {
    if chunks == [] then [] else Concat(chunks[..|chunks| - 1]) + chunks[|chunks| - 1]
  }

  // ------------------------------------------------------------ both are folds

  /** All whole blocks absorbed. */
  function Blocks<V>(f: Step<V>, v: V, m: Bytes): V
    decreases |m|
  {
    if |m| < BLOCK then v else Blocks(f, f(v, m[..BLOCK]), m[BLOCK..])
  }

  /** A whole number of blocks. */
  predicate Whole(n: nat) {
    n == 0 || (n >= BLOCK && Whole(n - BLOCK))
  }

  lemma {:induction false} WholeMod(n: nat)
    ensures Whole(n) <==> n % BLOCK == 0
  {
    if n >= BLOCK {
      WholeMod(n - BLOCK);
      assert (n - BLOCK) % BLOCK == n % BLOCK;
    }
  }

  lemma {:induction false} WholeSum(a: nat, b: nat)
    requires Whole(a) && Whole(b)
    ensures Whole(a + b)
  {
    if a > 0 {
      WholeSum(a - BLOCK, b);
      assert a - BLOCK + b == a + b - BLOCK;
    }
  }

  lemma {:induction false} BlocksAppend<V>(f: Step<V>, v: V, a: Bytes, b: Bytes)
    requires Whole(|a|)
    ensures Blocks(f, v, a + b) == Blocks(f, Blocks(f, v, a), b)
    decreases |a|
  {
    if a == [] {
      assert a + b == b;
    } else {
      assert (a + b)[..BLOCK] == a[..BLOCK] && (a + b)[BLOCK..] == a[BLOCK..] + b;
      BlocksAppend(f, f(v, a[..BLOCK]), a[BLOCK..], b);
    }
  }

  /** How much is left over for the last block: nothing only for nothing. */
  function Left(n: nat): (r: nat)
    ensures r <= BLOCK && r <= n && (n > 0 ==> r > 0)
  {
    if n == 0 then 0 else (n - 1) % BLOCK + 1
  }

  lemma {:induction false} LeftOfMore(n: nat)
    requires n > BLOCK
    ensures Left(n) == Left(n - BLOCK)
  {
    assert (n - 1 - BLOCK) % BLOCK == (n - 1) % BLOCK;
  }

  lemma {:induction false} LeftLeavesWhole(n: nat)
    ensures Whole(n - Left(n))
  {
    if n > BLOCK {
      LeftOfMore(n);
      LeftLeavesWhole(n - BLOCK);
    } else {
      assert Left(n) == n;
    }
  }

  lemma {:induction false} ConsumeIsBlocks<V>(f: Step<V>, v: V, m: Bytes)
    ensures var a := |m| - Left(|m|); Consume(f, v, m) == (Blocks(f, v, m[..a]), m[a..])
    decreases |m|
  {
    if |m| > BLOCK {
      var a := |m| - Left(|m|);
      ConsumeIsBlocks(f, f(v, m[..BLOCK]), m[BLOCK..]);
      LeftOfMore(|m|);
      assert m[..a][..BLOCK] == m[..BLOCK] && m[..a][BLOCK..] == m[BLOCK..][..a - BLOCK];
      assert m[BLOCK..][a - BLOCK..] == m[a..];
    } else {
      assert Left(|m|) == |m| && m[0..] == m;
    }
  }

  /** State v is what absorbing `done`, a whole number of blocks, leaves. */
  ghost predicate Absorbed<V>(f: Step<V>, v0: V, v: V, done: Bytes) {
    Whole(|done|) && v == Blocks(f, v0, done)
  }

  lemma AbsorbsMore<V>(f: Step<V>, v0: V, v: V, done: Bytes, more: Bytes)
    requires Absorbed(f, v0, v, done) && Whole(|more|)
    ensures Absorbed(f, v0, Blocks(f, v, more), done + more)
  {
    BlocksAppend(f, v0, done, more);
    WholeAppend(done, more);
  }

  lemma WholeAppend(a: Bytes, b: Bytes)
    requires Whole(|a|) && Whole(|b|)
    ensures Whole(|a + b|)
  {
    assert |a + b| == |a| + |b|;
    WholeSum(|a|, |b|);
  }

  lemma OneBlock<V>(f: Step<V>, v: V, block: Bytes)
    requires |block| == BLOCK
    ensures Blocks(f, v, block) == f(v, block)
  {
    assert block[..BLOCK] == block;
  }

  lemma Consumed<V>(f: Step<V>, v0: V, v: V, done: Bytes, data: Bytes) returns (done': Bytes)
    requires Absorbed(f, v0, v, done)
    ensures Absorbed(f, v0, Consume(f, v, data).0, done') && done' + Consume(f, v, data).1 == done + data
  {
    var k := |data| - Left(|data|);
    ConsumeIsBlocks(f, v, data);
    LeftLeavesWhole(|data|);
    AbsorbsMore(f, v0, v, done, data[..k]);
    done' := done + data[..k];
    assert data == data[..k] + data[k..];
  }

  /** The context has absorbed all that it was fed but for what it buffers. */
  lemma UpdateTracks<V>(f: Step<V>, v0: V, c: Ctx<V>, done: Bytes, data: Bytes) returns (done': Bytes)
    requires |c.buf| <= BLOCK && Absorbed(f, v0, c.v, done)
    ensures var c' := Update(f, c, data);
            Absorbed(f, v0, c'.v, done') && done' + c'.buf == done + c.buf + data
  {
    if |c.buf| == 0 {
      assert c == Ctx(c.v, []) && data[0..] == data;
      done' := Consumed(f, v0, c.v, done, data);
    } else if |c.buf| + |data| < BLOCK {
      done' := done;
    } else {
      done' := FlushTracks(f, v0, c, done, data);
    }
  }

  lemma FlushTracks<V>(f: Step<V>, v0: V, c: Ctx<V>, done: Bytes, data: Bytes) returns (done': Bytes)
    requires 0 < |c.buf| <= BLOCK <= |c.buf| + |data| && Absorbed(f, v0, c.v, done)
    ensures var c' := Update(f, c, data);
            Absorbed(f, v0, c'.v, done') && done' + c'.buf == done + c.buf + data
  {
    var head, rest := data[..BLOCK - |c.buf|], data[BLOCK - |c.buf|..];
    var block := c.buf + head;
    OneBlock(f, c.v, block);
    AbsorbsMore(f, v0, c.v, done, block);
    done' := Consumed(f, v0, f(c.v, block), done + block, rest);
    assert data == head + rest;
    assert done + block + rest == done + c.buf + data;
  }

  lemma {:induction false} UpdatesTrack<V>(f: Step<V>, v0: V, chunks: seq<Bytes>) returns (done: Bytes)
    ensures var c := UpdateAll(f, Ctx(v0, []), chunks);
            Absorbed(f, v0, c.v, done) && done + c.buf == Concat(chunks)
  {
    if chunks == [] {
      done := [];
    } else {
      var front := chunks[..|chunks| - 1];
      var before := UpdatesTrack(f, v0, front);
      done := UpdateTracks(f, v0, UpdateAll(f, Ctx(v0, []), front), before, chunks[|chunks| - 1]);
    }
  }

  // -------------------------------------------------------------- which splits

  function Total(lengths: seq<nat>): nat {
    if lengths == [] then 0 else Total(lengths[..|lengths| - 1]) + lengths[|lengths| - 1]
  }

  /** Not a whole number of blocks, or nothing, or a whole block in the last piece. */
  predicate Harmless(lengths: seq<nat>) {
    var n := Total(lengths);
    n % BLOCK != 0 || n == 0 || lengths[|lengths| - 1] >= BLOCK
  }

  ghost predicate HasLengths(chunks: seq<Bytes>, lengths: seq<nat>) {
    |chunks| == |lengths| && forall i :: 0 <= i < |chunks| ==> |chunks[i]| == lengths[i]
  }

  lemma {:induction false} ConcatLength(chunks: seq<Bytes>, lengths: seq<nat>)
    requires HasLengths(chunks, lengths)
    ensures |Concat(chunks)| == Total(lengths)
  {
    if chunks != [] {
      ConcatLength(chunks[..|chunks| - 1], lengths[..|lengths| - 1]);
    }
  }

  /** The buffer ends up with what the one-shot computation keeps for its last
      block, exactly for the harmless splits; otherwise it ends up empty. */
  lemma BufferAtEnd<V>(f: Step<V>, v0: V, chunks: seq<Bytes>, lengths: seq<nat>)
    requires HasLengths(chunks, lengths)
    ensures |UpdateAll(f, Ctx(v0, []), chunks).buf| == if Harmless(lengths) then Left(Total(lengths)) else 0
  {
    if chunks != [] {
      var front, last := chunks[..|chunks| - 1], chunks[|chunks| - 1];
      ConcatLength(front, lengths[..|lengths| - 1]);
      WholeMod(Total(lengths));
      BufferAtLast(f, v0, front, last);
      assert chunks == front + [last];
    }
  }

  lemma BufferAtLast<V>(f: Step<V>, v0: V, front: seq<Bytes>, last: Bytes)
    ensures |UpdateAll(f, Ctx(v0, []), front + [last]).buf| == Ends(|last|, |Concat(front)| + |last|)
  {
    BuffersRemainder(f, v0, front);
    BufferAfter(f, UpdateAll(f, Ctx(v0, []), front), last, |Concat(front)|);
    UpdateAllLast(f, Ctx(v0, []), front, last);
  }

  lemma UpdateAllLast<V>(f: Step<V>, c: Ctx<V>, front: seq<Bytes>, last: Bytes)
    requires |c.buf| <= BLOCK
    ensures UpdateAll(f, c, front + [last]) == Update(f, UpdateAll(f, c, front), last)
  {
    assert (front + [last])[..|front|] == front;
  }

  lemma BuffersRemainder<V>(f: Step<V>, v0: V, chunks: seq<Bytes>)
    ensures |UpdateAll(f, Ctx(v0, []), chunks).buf| <= |Concat(chunks)|
    ensures Whole(|Concat(chunks)| - |UpdateAll(f, Ctx(v0, []), chunks).buf|)
  {
    var done := UpdatesTrack(f, v0, chunks);
  }

  /** What the last piece of length l leaves buffered, of n bytes in all. */
  function Ends(l: nat, n: nat): nat {
    if !Whole(n) || n == 0 || l >= BLOCK then Left(n) else 0
  }

  lemma BufferAfter<V>(f: Step<V>, c: Ctx<V>, data: Bytes, n: nat)
    requires |c.buf| <= BLOCK && |c.buf| <= n && Whole(n - |c.buf|)
    ensures |Update(f, c, data).buf| == Ends(|data|, n + |data|)
  {
    var b, l := |c.buf|, |data|;
    UpdateBuffers(f, c, data);
    if l < Need(b) { Within(b + l, n + l); } else { LeftOver(b, l, n + l); }
  }

  function Need(b: nat): nat
    requires b <= BLOCK
  {
    if b > 0 then BLOCK - b else 0
  }

  lemma UpdateBuffers<V>(f: Step<V>, c: Ctx<V>, data: Bytes)
    requires |c.buf| <= BLOCK
    ensures var need := Need(|c.buf|);
            |Update(f, c, data).buf| == if |data| < need then |c.buf| + |data| else Left(|data| - need)
  {
    var need := Need(|c.buf|);
    if |data| >= need {
      ConsumeIsBlocks(f, if |c.buf| > 0 then f(c.v, c.buf + data[..need]) else c.v, data[need..]);
    }
  }

  lemma Within(r: nat, n: nat)
    requires 0 < r < BLOCK && r <= n && Whole(n - r)
    ensures Left(n) == r && !Whole(n)
  {
    LeftOfTail(n, n - r);
    WholeDifference(n, n - r);
  }

  lemma {:induction false} LeftOfTail(n: nat, d: nat)
    requires d < n && Whole(d)
    ensures Left(n - d) == Left(n)
  {
    if d > 0 {
      LeftOfMore(n);
      LeftOfTail(n - BLOCK, d - BLOCK);
    }
  }

  lemma {:induction false} WholeDifference(n: nat, d: nat)
    requires d <= n && Whole(d)
    ensures Whole(n - d) <==> Whole(n)
  {
    if d > 0 { WholeDifference(n - BLOCK, d - BLOCK); }
  }

  lemma LeftOfWhole(n: nat)
    requires n > 0 && Whole(n)
    ensures Left(n) == BLOCK && Whole(n - BLOCK)
  {
    LeftOfTail(n, n - BLOCK);
  }

  lemma LeftOver(b: nat, l: nat, n: nat)
    requires b <= BLOCK && n >= b + l && Whole(n - b - l)
    requires l >= Need(b)
    ensures Left(l - Need(b)) == Ends(l, n)
  {
    var x := l - Need(b);
    assert b > 0 ==> n - x - BLOCK == n - b - l;
    assert Whole(n - x);
    WholeDifference(n, n - x);
    if x > 0 { LeftOfTail(n, n - x); }
  }

  /** On harmless splits, feeding the pieces ends as consuming the whole does. */
  lemma SameEnd<V>(f: Step<V>, v0: V, chunks: seq<Bytes>, lengths: seq<nat>)
    requires HasLengths(chunks, lengths) && Harmless(lengths)
    ensures var c := UpdateAll(f, Ctx(v0, []), chunks); Consume(f, v0, Concat(chunks)) == (c.v, c.buf)
  {
    var m := Concat(chunks);
    ConcatLength(chunks, lengths);
    BufferAtEnd(f, v0, chunks, lengths);
    var done := UpdatesTrack(f, v0, chunks);
    ConsumeIsBlocks(f, v0, m);
    assert m[..|done|] == done;
  }

  lemma ConsumeWhole<V>(f: Step<V>, v: V, m: Bytes)
    requires m != [] && Whole(|m|)
    ensures var a := |m| - BLOCK; a >= 0 && Consume(f, v, m) == (Blocks(f, v, m[..a]), m[a..])
  {
    ConsumeIsBlocks(f, v, m);
    LeftOfWhole(|m|);
  }
}
