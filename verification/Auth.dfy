/**
 The message authentication code: a one-shot computation, and a context fed in
 pieces. The lemmas say for which ways of cutting a message into pieces the two
 give the same tag.

 The last step mixes in the key itself, as the code does.
 */
module Auth {
  import opened Cutting

  const ROUNDS: nat := 12
  const TAG_SIZE: nat := 8

  datatype Words = Words(w0: bv32, w1: bv32, w2: bv32, w3: bv32)
  const ZERO := Words(0, 0, 0, 0)

  /** The key with its two subkeys. */
  datatype Key = Key(k: Words, k1: Words, k2: Words)

  function Rotl(x: bv32, n: bv32): bv32
    requires n <= 32
  {
    (x << n) | (x >> (32 - n))
  }

  /** Adds b into a, turns b and mixes a into it. */
  function Mix(a: bv32, b: bv32, turn: bv32): (bv32, bv32)
    requires turn < 32
  {
    (a + b, Rotl(b, turn) ^ (a + b))
  }

  function Round(v: Words): Words {
    var (a0, a1) := Mix(v.w0, v.w1, 5);
    var (a2, a3) := Mix(v.w2, v.w3, 8);
    var (b0, b3) := Mix(Rotl(a0, 16), a3, 13);
    var (b2, b1) := Mix(a2, a1, 7);
    Words(b0, b1, Rotl(b2, 16), b3)
  }

  function Rounds(v: Words, n: nat): Words {
    if n == 0 then v else Round(Rounds(v, n - 1))
  }

  function Permute(v: Words): Words {
    Rounds(v, ROUNDS)
  }

  function TimesTwo(v: Words): Words {
    var reduction := if v.w3 & 0x8000_0000 != 0 then 0x87 else 0;
    Words(ShiftUp(v.w0, 0) ^ reduction, ShiftUp(v.w1, v.w0), ShiftUp(v.w2, v.w1), ShiftUp(v.w3, v.w2))
  }

  function KeyInit(raw: Words): Key {
    Key(raw, TimesTwo(raw), TimesTwo(TimesTwo(raw)))
  }

  function Xor(a: Words, b: Words): Words {
    Words(a.w0 ^ b.w0, a.w1 ^ b.w1, a.w2 ^ b.w2, a.w3 ^ b.w3)
  }

  /** Little-endian. */
  function Word(b: Bytes, i: nat): bv32
    requires i + 4 <= |b|
  {
    ByteAt(b[i], 0) | ByteAt(b[i + 1], 8) | ByteAt(b[i + 2], 16) | ByteAt(b[i + 3], 24)
  }

  function ByteAt(b: bv8, shift: bv32): bv32
    requires shift <= 24
  {
    (b as bv32) << shift
  }

  function ShiftUp(hi: bv32, lo: bv32): bv32 {
    var one, top: bv32 := 1, 31;
    (hi << one) | (lo >> top)
  }

  function Load(b: Bytes): Words
    requires |b| == BLOCK
  {
    Words(Word(b, 0), Word(b, 4), Word(b, 8), Word(b, 12))
  }

  function ByteOf(w: bv32, shift: bv32): bv8
    requires shift <= 24
  {
    ((w >> shift) & 0xFF) as bv8
  }

  /** The first half of the state, in bytes. */
  function Tag(v: Words): (t: Bytes)
    ensures |t| == TAG_SIZE
  {
    [ByteOf(v.w0, 0), ByteOf(v.w0, 8), ByteOf(v.w0, 16), ByteOf(v.w0, 24),
     ByteOf(v.w1, 0), ByteOf(v.w1, 8), ByteOf(v.w1, 16), ByteOf(v.w1, 24)]
  }

  function Absorb(v: Words, block: Block): Words {
    Permute(Xor(v, Load(block)))
  }

  function Zeros(n: nat): (r: Bytes)
    ensures |r| == n
  {
    seq(n, _ => 0)
  }

  function Padded(rest: Bytes): (r: Bytes)
    requires |rest| <= BLOCK
    ensures |r| == BLOCK
  {
    if |rest| < BLOCK then rest + [1] + Zeros(BLOCK - 1 - |rest|) else rest
  }

  /** The last block, whole or padded, and the tag. */
  function Finish(key: Key, v: Words, rest: Bytes): Bytes
    requires |rest| <= BLOCK
  {
    var masked := Xor(v, if |rest| < BLOCK then key.k2 else key.k1);
    Tag(Xor(Absorb(masked, Padded(rest)), key.k))
  }

  function OneShot(key: Key, m: Bytes): Bytes {
    var (v, rest) := Consume(Absorb, key.k, m);
    Finish(key, v, rest)
  }

  function Incremental(key: Key, chunks: seq<Bytes>): Bytes {
    var c := UpdateAll(Absorb, Ctx(key.k, []), chunks);
    Finish(key, c.v, c.buf)
  }

  /** The two computations agree on harmless splits: same tag for every key and
      message. */
  lemma HarmlessAgrees(key: Key, chunks: seq<Bytes>, lengths: seq<nat>)
    requires HasLengths(chunks, lengths) && Harmless(lengths)
    ensures Incremental(key, chunks) == OneShot(key, Concat(chunks))
  {
    SameEnd(Absorb, key.k, chunks, lengths);
  }

  // --------------------------------------------------- the splits that do harm

  /** With the zero key, zeros leave the state at zero. */
  lemma {:induction false} RoundsOfZero(n: nat)
    ensures Rounds(ZERO, n) == ZERO
  {
    if n > 0 { RoundsOfZero(n - 1); }
  }

  lemma {:induction false} BlocksOfZeros(n: nat)
    ensures Blocks(Absorb, ZERO, Zeros(n)) == ZERO
  {
    if n >= BLOCK {
      ZerosCut(n, BLOCK);
      ZeroBlock();
      BlocksOfZeros(n - BLOCK);
    }
  }

  lemma ZeroBlock()
    ensures Absorb(ZERO, Zeros(BLOCK)) == ZERO
  {
    assert Load(Zeros(BLOCK)) == ZERO;
    RoundsOfZero(ROUNDS);
  }

  /** What the permutation makes of a state with only the padding bit. */
  lemma PermutedPadding()
    ensures Permute(Words(1, 0, 0, 0)) == Words(0x6F2EC97B, 0x0865A1F6, 0x9E4ECD95, 0x531D94FF)
  {
    var v0 := Words(1, 0, 0, 0);
    FourRounds(v0, 0, v0, Words(0x1BAC9162, 0x7F116020, 0xCC390C77, 0x2E820703));
    FourRounds(v0, 4, Rounds(v0, 4), Words(0xF27C371C, 0x761FD761, 0x98743A86, 0x59D8BB11));
    FourRounds(v0, 8, Rounds(v0, 8), Words(0x6F2EC97B, 0x0865A1F6, 0x9E4ECD95, 0x531D94FF));
  }

  lemma FourRounds(v0: Words, n: nat, v: Words, r: Words)
    requires Rounds(v0, n) == v && Round(Round(Round(Round(v)))) == r
    ensures Rounds(v0, n + 4) == r
  {
    assert Rounds(v0, n + 1) == Round(v);
    assert Rounds(v0, n + 2) == Round(Round(v));
    assert Rounds(v0, n + 3) == Round(Round(Round(v)));
  }

  function ZeroChunks(lengths: seq<nat>): seq<Bytes> {
    seq(|lengths|, i requires 0 <= i < |lengths| => Zeros(lengths[i]))
  }

  lemma {:induction false} ConcatOfZeros(lengths: seq<nat>)
    ensures Concat(ZeroChunks(lengths)) == Zeros(Total(lengths))
  {
    if lengths != [] {
      var front := lengths[..|lengths| - 1];
      assert ZeroChunks(lengths)[..|lengths| - 1] == ZeroChunks(front);
      ConcatOfZeros(front);
    }
  }

  lemma ZerosInPieces(lengths: seq<nat>)
    requires !Harmless(lengths)
    ensures UpdateAll(Absorb, Ctx(ZERO, []), ZeroChunks(lengths)) == Ctx(ZERO, [])
  {
    var key, chunks, n := KeyInit(ZERO), ZeroChunks(lengths), Total(lengths);
    ConcatOfZeros(lengths);
    BufferAtEnd(Absorb, ZERO, chunks, lengths);
    var done := UpdatesTrack(Absorb, ZERO, chunks);
    assert done == Zeros(n);
    BlocksOfZeros(n);
  }

  lemma ZerosAtOnce(n: nat)
    requires n > 0 && Whole(n)
    ensures Consume(Absorb, ZERO, Zeros(n)) == (ZERO, Zeros(BLOCK))
  {
    var m, a := Zeros(n), n - BLOCK;
    ConsumeWhole(Absorb, ZERO, m);
    ZerosCut(n, a);
    BlocksOfZeros(a);
    assert Blocks(Absorb, ZERO, m[..a]) == ZERO && m[a..] == Zeros(BLOCK);
  }

  lemma ZerosCut(n: nat, k: nat)
    requires k <= n
    ensures Zeros(n)[..k] == Zeros(k) && Zeros(n)[k..] == Zeros(n - k)
  {}

  /** A harmful split of zeros under the zero key: the one-shot tag is zero, and the
      other one has the padding bit permuted into it. */
  lemma HarmfulZeros(lengths: seq<nat>)
    requires !Harmless(lengths)
    ensures var key, chunks := KeyInit(ZERO), ZeroChunks(lengths);
            Incremental(key, chunks) != OneShot(key, Concat(chunks))
  {
    ZerosInPieces(lengths);
    ConcatOfZeros(lengths);
    WholeMod(Total(lengths));
    ZerosAtOnce(Total(lengths));
    PaddingTag();
    WholeTag();
  }

  lemma PaddingTag()
    ensures Finish(KeyInit(ZERO), ZERO, [])[0] == 0x7B
  {
    assert KeyInit(ZERO) == Key(ZERO, ZERO, ZERO);
    assert Padded([]) == [1] + Zeros(15);
    assert Load(Padded([])) == Words(1, 0, 0, 0);
    PermutedPadding();
  }

  lemma WholeTag()
    ensures Finish(KeyInit(ZERO), ZERO, Zeros(BLOCK))[0] == 0
  {
    assert KeyInit(ZERO) == Key(ZERO, ZERO, ZERO);
    ZeroBlock();
  }

  ghost predicate AlwaysAgrees(lengths: seq<nat>) {
    forall raw: Words, chunks: seq<Bytes> :: HasLengths(chunks, lengths) ==>
      Incremental(KeyInit(raw), chunks) == OneShot(KeyInit(raw), Concat(chunks))
  }

  /** For pieces of given lengths, feeding them one by one gives the one-shot tag
      under every key and for every message exactly when the total is not a whole
      number of blocks, or nothing, or the last piece has a whole block. */
  lemma SplitsAgreeIff(lengths: seq<nat>)
    ensures AlwaysAgrees(lengths) <==> Harmless(lengths)
  {
    if Harmless(lengths) {
      forall raw: Words, chunks: seq<Bytes> | HasLengths(chunks, lengths)
        ensures Incremental(KeyInit(raw), chunks) == OneShot(KeyInit(raw), Concat(chunks))
      {
        HarmlessAgrees(KeyInit(raw), chunks, lengths);
      }
    } else {
      HarmfulZeros(lengths);
      assert HasLengths(ZeroChunks(lengths), lengths);
    }
  }

  // ---------------------------------------------------------------- in place

  function Pack(v: array<bv32>): Words
    requires v.Length == 4
    reads v
  {
    Words(v[0], v[1], v[2], v[3])
  }

  method MixInPlace(v: array<bv32>, i: nat, j: nat, turn: bv32)
    requires v.Length == 4 && i < 4 && j < 4 && i != j && turn < 32
    modifies v
    ensures (v[i], v[j]) == Mix(old(v[i]), old(v[j]), turn)
    ensures forall k :: 0 <= k < 4 && k != i && k != j ==> v[k] == old(v[k])
  {
    var (a, b) := Mix(v[i], v[j], turn);
    v[i] := a;
    v[j] := b;
  }

  method RoundInPlace(v: array<bv32>)
    requires v.Length == 4
    modifies v
    ensures Pack(v) == Round(old(Pack(v)))
  {
    MixInPlace(v, 0, 1, 5);
    v[0] := Rotl(v[0], 16);
    MixInPlace(v, 2, 3, 8);
    MixInPlace(v, 0, 3, 13);
    MixInPlace(v, 2, 1, 7);
    v[2] := Rotl(v[2], 16);
  }

  method PermuteInPlace(v: array<bv32>, rounds: nat)
    requires v.Length == 4
    modifies v
    ensures Pack(v) == Rounds(old(Pack(v)), rounds)
  {
    for i := 0 to rounds
      invariant Pack(v) == Rounds(old(Pack(v)), i)
    {
      RoundInPlace(v);
    }
  }

  method MixIn(v: array<bv32>, w: Words)
    requires v.Length == 4
    modifies v
    ensures Pack(v) == Xor(old(Pack(v)), w)
  {
    var mixed := Xor(Pack(v), w);
    v[0], v[1], v[2], v[3] := mixed.w0, mixed.w1, mixed.w2, mixed.w3;
  }

  method AbsorbInPlace(v: array<bv32>, block: Bytes)
    requires v.Length == 4 && |block| == BLOCK
    modifies v
    ensures Pack(v) == Absorb(old(Pack(v)), block)
  {
    MixIn(v, Load(block));
    PermuteInPlace(v, ROUNDS);
  }

  /** The loop over complete blocks; what is left starts at `at`. */
  method ConsumeInPlace(v: array<bv32>, m: Bytes) returns (at: nat)
    requires v.Length == 4
    modifies v
    ensures at <= |m| && (Pack(v), m[at..]) == Consume(Absorb, old(Pack(v)), m)
  {
    at := 0;
    assert m[0..] == m;
    while |m| - at > BLOCK
      invariant at <= |m| && Consume(Absorb, Pack(v), m[at..]) == Consume(Absorb, old(Pack(v)), m)
    {
      assert m[at..][..BLOCK] == m[at..at + BLOCK] && m[at..][BLOCK..] == m[at + BLOCK..];
      AbsorbInPlace(v, m[at..at + BLOCK]);
      at := at + BLOCK;
    }
  }

  method FinishInPlace(key: Key, v: array<bv32>, rest: Bytes) returns (tag: Bytes)
    requires v.Length == 4 && |rest| <= BLOCK
    modifies v
    ensures tag == Finish(key, old(Pack(v)), rest)
  {
    MixIn(v, if |rest| < BLOCK then key.k2 else key.k1);
    AbsorbInPlace(v, Padded(rest));
    MixIn(v, key.k);
    tag := Tag(Pack(v));
  }

  method Compute(key: Key, m: Bytes) returns (tag: Bytes)
    ensures tag == OneShot(key, m)
  {
    var v := new bv32[4] [key.k.w0, key.k.w1, key.k.w2, key.k.w3];
    var at := ConsumeInPlace(v, m);
    tag := FinishInPlace(key, v, m[at..]);
  }

  class AuthCtx {
    const key: Key
    const v: array<bv32>
    const buffer: array<bv8>
    var buflen: nat

    ghost predicate Ok() reads this {
      v.Length == 4 && buffer.Length == BLOCK && buflen <= BLOCK
    }

    ghost function View(): Ctx<Words> reads this, v, buffer
      requires Ok()
    {
      Ctx(Pack(v), buffer[..buflen])
    }

    constructor (key: Key)
      ensures Ok() && View() == Ctx(key.k, []) && this.key == key && fresh(v) && fresh(buffer)
    {
      this.key := key;
      v := new bv32[4] [key.k.w0, key.k.w1, key.k.w2, key.k.w3];
      buffer := new bv8[BLOCK](_ => 0);
      buflen := 0;
    }

    /** Copies bytes into the buffer from position `at` on. */
    method Fill(at: nat, bytes: Bytes)
      requires Ok() && at + |bytes| <= BLOCK
      modifies this`buflen, buffer
      ensures Ok() && buflen == at + |bytes| && buffer[..buflen] == old(buffer[..at]) + bytes
    {
      for i := 0 to |bytes|
        modifies buffer
        invariant buffer[..at + i] == old(buffer[..at]) + bytes[..i]
      {
        buffer[at + i] := bytes[i];
      }
      buflen := at + |bytes|;
    }

    method Feed(data: Bytes)
      requires Ok()
      modifies this`buflen, v, buffer
      ensures Ok() && View() == Update(Absorb, old(View()), data)
    {
      var at := 0;
      if buflen > 0 {
        var need := BLOCK - buflen;
        if |data| < need {
          Fill(buflen, data);
          return;
        }
        CompleteBlock(data[..need]);
        at := need;
      }
      FeedRest(data[at..]);
    }

    method CompleteBlock(head: Bytes)
      requires Ok() && buflen + |head| == BLOCK
      modifies this`buflen, v, buffer
      ensures Ok() && buflen == 0 && Pack(v) == Absorb(old(View()).v, old(View()).buf + head)
    {
      Fill(buflen, head);
      assert buffer[..] == old(View()).buf + head;
      AbsorbInPlace(v, buffer[..]);
      buflen := 0;
    }

    /** With an empty buffer. */
    method FeedRest(data: Bytes)
      requires Ok() && buflen == 0
      modifies this`buflen, v, buffer
      ensures Ok() && View() == (var (v', rest) := Consume(Absorb, old(Pack(v)), data); Ctx(v', rest))
    {
      var at := ConsumeInPlace(v, data);
      if |data| - at > 0 {
        Fill(0, data[at..]);
      }
    }

    method Final() returns (tag: Bytes)
      requires Ok()
      modifies v
      ensures tag == Finish(key, old(View()).v, old(View()).buf)
    {
      tag := FinishInPlace(key, v, buffer[..buflen]);
    }
  }
}
