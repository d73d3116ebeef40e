/**
 The file system on values: an inode table, a free bitmap and the blocks of the
 card. A file owns ten direct blocks, one indirect block and the 128 blocks the
 indirect block lists; pointer 0 means "no block".

 The lemmas here say what one block update does to the bytes of every file, and
 that the ownership invariant survives it. Module `EkkfsDriver` updates the same
 state in place and calls them.
 */
module Ekkfs {
  import opened Types
  import opened BlockCache

  const DIRECT_BLOCKS: nat := 10
  const POINTERS_PER_BLOCK: nat := 128
  const MAX_BLOCKS: nat := 138                  // per file: direct plus indirect
  const MAX_FILE: nat := 70656                  // (10 + 128) * 512 bytes
  const INDIRECT_SLOT: nat := 138               // slot of the indirect block itself
  const MAX_FILENAME: nat := 15

  type Word = w: nat | w < 0x1_0000_0000

  datatype Inode = Inode(
    used: bool, system: bool, owner: nat, size: nat,
    blocks: seq<nat>, indirect: nat, modified: nat, name: string)

  const EMPTY_INODE: Inode := Inode(false, false, 0, 0, [0, 0, 0, 0, 0, 0, 0, 0, 0, 0], 0, 0, "")

  /** `bitmap` covers the blocks from `dataStart` on, padded to whole bytes. */
  datatype Fs = Fs(dataStart: nat, bitmap: seq<bool>, free: nat, inodes: seq<Inode>, disk: seq<Block>)

  // ------------------------------------------------- blocks as pointer tables

  function ZeroBlock(): (b: Block)
    ensures forall k :: 0 <= k < BLOCK_SIZE ==> b[k] == 0
  {
    seq(BLOCK_SIZE, _ => 0)
  }

  function WordAt(b: Block, k: nat): (w: Word)
    requires k < POINTERS_PER_BLOCK
  {
    b[4 * k] as int + 0x100 * (b[4 * k + 1] as int) + 0x1_0000 * (b[4 * k + 2] as int) + 0x100_0000 * (b[4 * k + 3] as int)
  }

  function DecodeWords(b: Block): (ws: seq<Word>)
    ensures |ws| == POINTERS_PER_BLOCK && forall k :: 0 <= k < POINTERS_PER_BLOCK ==> ws[k] == WordAt(b, k)
  {
    seq(POINTERS_PER_BLOCK, k requires 0 <= k < POINTERS_PER_BLOCK => WordAt(b, k))
  }

  /** Byte j of a little-endian word. */
  function ByteOfWord(w: Word, j: nat): Byte {
    if j == 0 then w % 0x100
    else if j == 1 then w / 0x100 % 0x100
    else if j == 2 then w / 0x1_0000 % 0x100
    else w / 0x100_0000 % 0x100
  }

  function EncodeWords(ws: seq<Word>): (b: Block)
    requires |ws| == POINTERS_PER_BLOCK
  {
    seq(BLOCK_SIZE, i requires 0 <= i < BLOCK_SIZE => ByteOfWord(ws[i / 4], i % 4))
  }

  lemma WordFromBytes(w: Word)
    ensures ByteOfWord(w, 0) + 0x100 * ByteOfWord(w, 1) + 0x1_0000 * ByteOfWord(w, 2) + 0x100_0000 * ByteOfWord(w, 3) == w
  {
    var a, b, c := w / 0x100, w / 0x1_0000, w / 0x100_0000;
    assert w == 0x100 * a + w % 0x100;
    assert b == a / 0x100 && a == 0x100 * b + a % 0x100;
    assert c == b / 0x100 && b == 0x100 * c + b % 0x100;
    assert c < 0x100;
  }

  /** A pointer table stored in a block and read back is the same table. */
  lemma TableRoundTrip(ws: seq<Word>)
    requires |ws| == POINTERS_PER_BLOCK
    ensures DecodeWords(EncodeWords(ws)) == ws
  {
    var b := EncodeWords(ws);
    forall k | 0 <= k < POINTERS_PER_BLOCK ensures DecodeWords(b)[k] == ws[k] {
      WordFromBytes(ws[k]);
      assert b[4 * k] == ByteOfWord(ws[k], 0);
      assert b[4 * k + 1] == ByteOfWord(ws[k], 1);
      assert b[4 * k + 2] == ByteOfWord(ws[k], 2);
      assert b[4 * k + 3] == ByteOfWord(ws[k], 3);
    }
  }

  // ---------------------------------------------------------- what files own

  predicate Shaped(fs: Fs) {
    && 0 < fs.dataStart <= |fs.disk| <= NO_BLOCK
    && |fs.disk| - fs.dataStart <= |fs.bitmap|
    && forall i :: 0 <= i < |fs.inodes| ==> |fs.inodes[i].blocks| == DIRECT_BLOCKS
  }

  /** Block 0 stands for no block, which reads as zeros. */
  function BlockAt(disk: seq<Block>, p: nat): Block {
    if 0 < p < |disk| then disk[p] else ZeroBlock()
  }

  /** The pointers listed in an inode's indirect block, all 0 when it has none. */
  function Table(disk: seq<Block>, n: Inode): (t: seq<Word>)
    ensures |t| == POINTERS_PER_BLOCK
  {
    DecodeWords(BlockAt(disk, n.indirect))
  }

  /** Slots 0..9 are direct, 10..137 indirect, and 138 is the indirect block. */
  function Ptr(disk: seq<Block>, n: Inode, slot: nat): nat
    requires slot <= INDIRECT_SLOT && |n.blocks| == DIRECT_BLOCKS
  {
    if slot < DIRECT_BLOCKS then n.blocks[slot]
    else if slot == INDIRECT_SLOT then n.indirect
    else Table(disk, n)[slot - DIRECT_BLOCKS]
  }

  predicate InData(fs: Fs, p: nat) { fs.dataStart <= p < |fs.disk| }

  predicate Marked(fs: Fs, p: nat)
    requires Shaped(fs)
  {
    InData(fs, p) && fs.bitmap[p - fs.dataStart]
  }

  /** Block `slot` of a file as it reads. */
  function BlockOf(disk: seq<Block>, n: Inode, slot: nat): Block
    requires slot < MAX_BLOCKS && |n.blocks| == DIRECT_BLOCKS
  {
    BlockAt(disk, Ptr(disk, n, slot))
  }

  function ByteAt(disk: seq<Block>, n: Inode, k: nat): Byte
    requires k < MAX_FILE && |n.blocks| == DIRECT_BLOCKS
  {
    BlockOf(disk, n, k / BLOCK_SIZE)[k % BLOCK_SIZE]
  }

  function Content(disk: seq<Block>, n: Inode): (c: seq<Byte>)
    requires n.size <= MAX_FILE && |n.blocks| == DIRECT_BLOCKS
    ensures |c| == n.size && forall k :: 0 <= k < n.size ==> c[k] == ByteAt(disk, n, k)
  {
    seq(n.size, k requires 0 <= k < n.size => ByteAt(disk, n, k))
  }

  function CountClear(bits: seq<bool>): (c: nat)
    ensures c <= |bits|
  {
    if bits == [] then 0 else (if bits[0] then 0 else 1) + CountClear(bits[1..])
  }

  // --------------------------------------------------------------- invariant

  /** The block in slot `s` of file i, if any, is a marked data block in no other
      slot of any file. */
  ghost predicate SlotOk(fs: Fs, i: nat, s: nat)
    requires Shaped(fs) && i < |fs.inodes| && s <= INDIRECT_SLOT
  {
    var p := Ptr(fs.disk, fs.inodes[i], s);
    p != 0 ==> Marked(fs, p) && OnlyIn(fs, p, i, s)
  }

  ghost predicate OnlyIn(fs: Fs, p: nat, i: nat, s: nat)
    requires Shaped(fs)
  {
    forall j, t :: 0 <= j < |fs.inodes| && 0 <= t <= INDIRECT_SLOT && Ptr(fs.disk, fs.inodes[j], t) == p ==> j == i && t == s
  }

  /** Every owned block is marked, and no block is owned twice. */
  ghost predicate Owned(fs: Fs)
    requires Shaped(fs)
  {
    forall i, s {:trigger SlotOk(fs, i, s)} :: 0 <= i < |fs.inodes| && 0 <= s <= INDIRECT_SLOT ==> SlotOk(fs, i, s)
  }

  ghost predicate IsOwned(fs: Fs, q: nat)
    requires Shaped(fs)
  {
    exists j, t :: 0 <= j < |fs.inodes| && 0 <= t <= INDIRECT_SLOT && Ptr(fs.disk, fs.inodes[j], t) == q
  }

  /** Every marked block is in some slot of some file. */
  ghost predicate NoLeak(fs: Fs)
    requires Shaped(fs)
  {
    forall q {:trigger Marked(fs, q)} :: Marked(fs, q) ==> IsOwned(fs, q)
  }

  /** Bytes past the end of a file read as zero, so extending it exposes nothing. */
  ghost predicate ZeroTail(disk: seq<Block>, n: Inode) {
    && |n.blocks| == DIRECT_BLOCKS
    && n.size <= MAX_FILE
    && forall k :: n.size <= k < MAX_FILE ==> ByteAt(disk, n, k) == 0
  }

  ghost predicate InodeOk(n: Inode) {
    && |n.blocks| == DIRECT_BLOCKS && |n.name| <= MAX_FILENAME
    && (!n.used ==> n.indirect == 0 && forall s :: 0 <= s < DIRECT_BLOCKS ==> n.blocks[s] == 0)
  }

  ghost predicate UniqueNames(inodes: seq<Inode>) {
    forall i, j :: 0 <= i < j < |inodes| && inodes[i].used && inodes[j].used ==> inodes[i].name != inodes[j].name
  }

  ghost predicate CountsFree(fs: Fs)
    requires Shaped(fs)
  {
    fs.free == CountClear(fs.bitmap[..|fs.disk| - fs.dataStart])
  }

  ghost predicate Valid(fs: Fs) {
    && Shaped(fs)
    && Owned(fs)
    && NoLeak(fs)
    && CountsFree(fs)
    && UniqueNames(fs.inodes)
    && (forall i :: 0 <= i < |fs.inodes| ==> InodeOk(fs.inodes[i]) && ZeroTail(fs.disk, fs.inodes[i]))
  }

  /** What the name-to-contents view of an inode table rests on. */
  ghost predicate Listed(inodes: seq<Inode>) {
    UniqueNames(inodes) && forall i :: 0 <= i < |inodes| ==> |inodes[i].blocks| == DIRECT_BLOCKS && inodes[i].size <= MAX_FILE
  }

  ghost function Names(inodes: seq<Inode>): set<string> {
    set i | 0 <= i < |inodes| && inodes[i].used :: inodes[i].name
  }

  ghost function Where(inodes: seq<Inode>, name: string): (i: nat)
    requires name in Names(inodes)
    ensures i < |inodes| && inodes[i].used && inodes[i].name == name
  {
    var i :| 0 <= i < |inodes| && inodes[i].used && inodes[i].name == name;
    i
  }

  /** The abstract file system: names to contents. */
  ghost function Files(disk: seq<Block>, inodes: seq<Inode>): map<string, seq<Byte>>
    requires Listed(inodes)
  {
    map name | name in Names(inodes) :: Content(disk, inodes[Where(inodes, name)])
  }

  /** What is known of a file besides its contents. */
  datatype Stat = Stat(owner: nat, system: bool, size: nat, modified: nat)

  function StatOf(n: Inode): Stat {
    Stat(n.owner, n.system, n.size, n.modified)
  }

  ghost function Stats(inodes: seq<Inode>): map<string, Stat> {
    map name | name in Names(inodes) :: StatOf(inodes[Where(inodes, name)])
  }

  /** Writing `data` over `old` from `pos` on; a gap before `pos` becomes zeros. */
  function Overwrite(old_: seq<Byte>, pos: nat, data: seq<Byte>): (r: seq<Byte>)
    ensures |r| == if |old_| <= pos + |data| then pos + |data| else |old_|
  {
    seq(if |old_| <= pos + |data| then pos + |data| else |old_|,
        k requires 0 <= k => if pos <= k < pos + |data| then data[k - pos] else if k < |old_| then old_[k] else 0)
  }

  /** Overwriting reads back the data where it was written, zeros in a gap before it
      and the old contents elsewhere. */
  lemma OverwriteReads(old_: seq<Byte>, pos: nat, data: seq<Byte>)
    ensures var r := Overwrite(old_, pos, data);
            && r[pos..pos + |data|] == data
            && (forall k :: |old_| <= k < pos ==> r[k] == 0)
            && (forall k :: 0 <= k < |old_| && !(pos <= k < pos + |data|) ==> r[k] == old_[k])
  {
    assert Overwrite(old_, pos, data)[pos..pos + |data|] == data;
  }

  // -------------------------------------------------------- the free counter

  lemma {:induction false} CountFlip(bits: seq<bool>, k: nat)
    requires k < |bits|
    ensures CountClear(bits[k := true]) == CountClear(bits) - (if bits[k] then 0 else 1)
    ensures CountClear(bits[k := false]) == CountClear(bits) + (if bits[k] then 1 else 0)
  {
    if k > 0 {
      CountFlip(bits[1..], k - 1);
      assert bits[k := true][1..] == bits[1..][k - 1 := true];
      assert bits[k := false][1..] == bits[1..][k - 1 := false];
    } else {
      assert bits[0 := true][1..] == bits[1..] && bits[0 := false][1..] == bits[1..];
    }
  }

  lemma {:induction false} CountZero(bits: seq<bool>)
    ensures CountClear(bits) == 0 <==> forall k :: 0 <= k < |bits| ==> bits[k]
  {
    if bits != [] {
      CountZero(bits[1..]);
      assert forall k :: 0 <= k < |bits| - 1 ==> bits[1..][k] == bits[k + 1];
      if CountClear(bits) == 0 {
        forall k | 0 <= k < |bits| ensures bits[k] {
          if k > 0 { assert bits[1..][k - 1]; }
        }
      }
    }
  }

  /** Dropping pointers, or keeping them all, keeps ownership if the blocks still
      pointed at stay marked. */
  lemma FewerPointers(fs: Fs, fs': Fs)
    requires Shaped(fs) && Owned(fs) && Shaped(fs') && |fs.inodes| == |fs'.inodes|
    requires forall j, t :: 0 <= j < |fs.inodes| && 0 <= t <= INDIRECT_SLOT ==>
               Ptr(fs'.disk, fs'.inodes[j], t) in {0, Ptr(fs.disk, fs.inodes[j], t)}
    requires forall j, t | 0 <= j < |fs.inodes| && 0 <= t <= INDIRECT_SLOT && Ptr(fs'.disk, fs'.inodes[j], t) != 0 ::
               Marked(fs, Ptr(fs'.disk, fs'.inodes[j], t)) ==> Marked(fs', Ptr(fs'.disk, fs'.inodes[j], t))
    ensures Owned(fs')
  {
    forall j, t | 0 <= j < |fs.inodes| && 0 <= t <= INDIRECT_SLOT ensures SlotOk(fs', j, t) {
      assert SlotOk(fs, j, t);
    }
  }

  // --------------------------------------------------- one block of one file

  /** Inode `n` with block `d` in slot `s`, reached through indirect block `p`. */
  function SetPointer(n: Inode, s: nat, d: nat, p: nat): Inode
    requires s < MAX_BLOCKS && |n.blocks| == DIRECT_BLOCKS
  {
    if s < DIRECT_BLOCKS then n.(blocks := n.blocks[s := d]) else n.(indirect := p)
  }

  /** The card after the block and, if there is one, its table are written. */
  function StoreBlock(disk: seq<Block>, n: Inode, s: nat, d: Word, p: nat, data: Block): (r: seq<Block>)
    requires s < MAX_BLOCKS && 0 < d < |disk| && (s >= DIRECT_BLOCKS ==> 0 < p < |disk|)
    ensures |r| == |disk|
  {
    if s < DIRECT_BLOCKS then disk[d := data]
    else disk[d := data][p := EncodeWords(Table(disk, n)[s - DIRECT_BLOCKS := d])]
  }

  /** Block `d` may go into slot `s` of inode `i`: it is there already, or nobody
      owns it; likewise the indirect block `p`. */
  ghost predicate Placeable(fs: Fs, i: nat, s: nat, d: nat, p: nat)
    requires Shaped(fs) && i < |fs.inodes| && s < MAX_BLOCKS
  {
    && Marked(fs, d)
    && (Ptr(fs.disk, fs.inodes[i], s) == d || (Ptr(fs.disk, fs.inodes[i], s) == 0 && Unowned(fs, d)))
    && (s >= DIRECT_BLOCKS ==>
          && Marked(fs, p) && p != d
          && (fs.inodes[i].indirect == p || (fs.inodes[i].indirect == 0 && Unowned(fs, p))))
  }

  ghost predicate Unowned(fs: Fs, d: nat)
    requires Shaped(fs)
  {
    forall i, s :: 0 <= i < |fs.inodes| && 0 <= s <= INDIRECT_SLOT ==> Ptr(fs.disk, fs.inodes[i], s) != d
  }

  function Place(fs: Fs, i: nat, s: nat, d: Word, p: nat, data: Block): Fs
    requires Shaped(fs) && i < |fs.inodes| && s < MAX_BLOCKS
    requires 0 < d < |fs.disk| && (s >= DIRECT_BLOCKS ==> 0 < p < |fs.disk|)
  {
    fs.(inodes := fs.inodes[i := SetPointer(fs.inodes[i], s, d, p)],
        disk := StoreBlock(fs.disk, fs.inodes[i], s, d, p, data))
  }

  /** A placeable block is in no slot but the one it goes to. */
  lemma PlaceableAlone(fs: Fs, i: nat, s: nat, d: nat, p: nat)
    requires Shaped(fs) && Owned(fs) && i < |fs.inodes| && s < MAX_BLOCKS && Placeable(fs, i, s, d, p)
    ensures OnlyIn(fs, d, i, s)
    ensures s >= DIRECT_BLOCKS ==> OnlyIn(fs, p, i, INDIRECT_SLOT)
  {
    assert SlotOk(fs, i, s) && SlotOk(fs, i, INDIRECT_SLOT);
  }

  /** The pointers of the written file: slot `s` now holds `d`, the indirect slot
      holds `p` if it is needed, and nothing else moved. */
  lemma PtrOfWritten(fs: Fs, i: nat, s: nat, d: Word, p: nat, data: Block, t: nat)
    requires Shaped(fs) && Owned(fs)
    requires i < |fs.inodes| && s < MAX_BLOCKS && t <= INDIRECT_SLOT && Placeable(fs, i, s, d, p)
    ensures var fs' := Place(fs, i, s, d, p, data);
            Ptr(fs'.disk, fs'.inodes[i], t) == if t == s then d
                                               else if t == INDIRECT_SLOT && s >= DIRECT_BLOCKS then p
                                               else Ptr(fs.disk, fs.inodes[i], t)
  {
    var fs' := Place(fs, i, s, d, p, data);
    var n := fs.inodes[i];
    if s >= DIRECT_BLOCKS {
      var table := Table(fs.disk, n)[s - DIRECT_BLOCKS := d];
      TableRoundTrip(table);
      assert Table(fs'.disk, fs'.inodes[i]) == table;
    } else if n.indirect != 0 {
      PlaceableAlone(fs, i, s, d, p);
      assert Ptr(fs.disk, n, INDIRECT_SLOT) == n.indirect;
    }
  }

  /** The pointers of every other file stay. */
  lemma PtrOfOther(fs: Fs, i: nat, s: nat, d: Word, p: nat, data: Block, j: nat, t: nat)
    requires Shaped(fs) && Owned(fs)
    requires i < |fs.inodes| && s < MAX_BLOCKS && t <= INDIRECT_SLOT && Placeable(fs, i, s, d, p)
    requires j < |fs.inodes| && j != i
    ensures var fs' := Place(fs, i, s, d, p, data);
            Ptr(fs'.disk, fs'.inodes[j], t) == Ptr(fs.disk, fs.inodes[j], t)
  {
    PlaceableAlone(fs, i, s, d, p);
    assert Ptr(fs.disk, fs.inodes[j], INDIRECT_SLOT) == fs.inodes[j].indirect;
  }

  /** Ptr after the write, for any file. */
  ghost predicate PtrStep(fs: Fs, fs': Fs, i: nat, s: nat, d: nat, p: nat)
    requires Shaped(fs) && Shaped(fs') && |fs.inodes| == |fs'.inodes| && i < |fs.inodes|
  {
    forall j, t :: 0 <= j < |fs.inodes| && 0 <= t <= INDIRECT_SLOT ==>
      Ptr(fs'.disk, fs'.inodes[j], t) == if j == i && t == s then d
                                         else if j == i && t == INDIRECT_SLOT && s >= DIRECT_BLOCKS then p
                                         else Ptr(fs.disk, fs.inodes[j], t)
  }

  lemma PlacePointers(fs: Fs, i: nat, s: nat, d: Word, p: nat, data: Block)
    requires Shaped(fs) && Owned(fs)
    requires i < |fs.inodes| && s < MAX_BLOCKS && Placeable(fs, i, s, d, p)
    ensures Shaped(Place(fs, i, s, d, p, data)) && PtrStep(fs, Place(fs, i, s, d, p, data), i, s, d, p)
  {
    forall j, t | 0 <= j < |fs.inodes| && 0 <= t <= INDIRECT_SLOT
      ensures var fs' := Place(fs, i, s, d, p, data);
              Ptr(fs'.disk, fs'.inodes[j], t) == if j == i && t == s then d
                                                 else if j == i && t == INDIRECT_SLOT && s >= DIRECT_BLOCKS then p
                                                 else Ptr(fs.disk, fs.inodes[j], t)
    {
      if j == i { PtrOfWritten(fs, i, s, d, p, data, t); } else { PtrOfOther(fs, i, s, d, p, data, j, t); }
    }
  }

  lemma SlotStaysOk(fs: Fs, fs': Fs, i: nat, s: nat, d: Word, p: nat, j: nat, t: nat)
    requires Shaped(fs) && Shaped(fs') && fs'.bitmap == fs.bitmap && fs'.dataStart == fs.dataStart && |fs'.disk| == |fs.disk|
    requires |fs.inodes| == |fs'.inodes|
    requires i < |fs.inodes| && s < MAX_BLOCKS && Placeable(fs, i, s, d, p) && PtrStep(fs, fs', i, s, d, p)
    requires OnlyIn(fs, d, i, s) && (s >= DIRECT_BLOCKS ==> OnlyIn(fs, p, i, INDIRECT_SLOT))
    requires j < |fs.inodes| && t <= INDIRECT_SLOT && SlotOk(fs, j, t)
    ensures SlotOk(fs', j, t)
  {}

  /** Ownership survives placing a block. */
  lemma PlaceKeepsOwnership(fs: Fs, i: nat, s: nat, d: Word, p: nat, data: Block)
    requires Shaped(fs) && Owned(fs)
    requires i < |fs.inodes| && s < MAX_BLOCKS && Placeable(fs, i, s, d, p)
    ensures var fs' := Place(fs, i, s, d, p, data); Shaped(fs') && Owned(fs')
  {
    PlacePointers(fs, i, s, d, p, data);
    PlaceableAlone(fs, i, s, d, p);
    var fs' := Place(fs, i, s, d, p, data);
    forall j, t | 0 <= j < |fs.inodes| && 0 <= t <= INDIRECT_SLOT ensures SlotOk(fs', j, t) {
      SlotStaysOk(fs, fs', i, s, d, p, j, t);
    }
  }

  lemma PlaceBlocks(fs: Fs, i: nat, s: nat, d: Word, p: nat, data: Block, j: nat, t: nat)
    requires Shaped(fs) && Owned(fs)
    requires i < |fs.inodes| && s < MAX_BLOCKS && Placeable(fs, i, s, d, p)
    requires j < |fs.inodes| && t < MAX_BLOCKS
    ensures var fs' := Place(fs, i, s, d, p, data);
            BlockOf(fs'.disk, fs'.inodes[j], t) == if j == i && t == s then data else BlockOf(fs.disk, fs.inodes[j], t)
  {
    PlacePointers(fs, i, s, d, p, data);
    PlaceableAlone(fs, i, s, d, p);
  }

  // ------------------------------------------------------------- allocation

  function Mark(fs: Fs, b: nat): Fs
    requires Shaped(fs) && InData(fs, b) && fs.free > 0
  {
    fs.(bitmap := fs.bitmap[b - fs.dataStart := true], free := fs.free - 1)
  }

  function Unmark(fs: Fs, b: nat): Fs
    requires Shaped(fs) && InData(fs, b)
  {
    fs.(bitmap := fs.bitmap[b - fs.dataStart := false], free := fs.free + 1)
  }

  /** The free counter follows the bitmap, provided the bit really changes. */
  lemma FlipCounts(fs: Fs, b: nat)
    requires Shaped(fs) && CountsFree(fs) && InData(fs, b)
    ensures !Marked(fs, b) ==> fs.free > 0 && CountsFree(Mark(fs, b))
    ensures Marked(fs, b) ==> CountsFree(Unmark(fs, b))
  {
    var n := |fs.disk| - fs.dataStart;
    var k := b - fs.dataStart;
    CountFlip(fs.bitmap[..n], k);
    assert fs.bitmap[k := true][..n] == fs.bitmap[..n][k := true];
    assert fs.bitmap[k := false][..n] == fs.bitmap[..n][k := false];
  }

  /** A clear bit means an unowned block. */
  lemma ClearIsUnowned(fs: Fs, b: nat)
    requires Shaped(fs) && Owned(fs) && b > 0 && !Marked(fs, b)
    ensures Unowned(fs, b)
  {
    forall i, s | 0 <= i < |fs.inodes| && 0 <= s <= INDIRECT_SLOT ensures Ptr(fs.disk, fs.inodes[i], s) != b {
      assert SlotOk(fs, i, s);
    }
  }

  lemma MarkKeepsOwnership(fs: Fs, b: nat)
    requires Shaped(fs) && Owned(fs) && CountsFree(fs) && InData(fs, b) && !Marked(fs, b)
    ensures fs.free > 0
    ensures var fs' := Mark(fs, b); Shaped(fs') && Owned(fs') && CountsFree(fs') && Marked(fs', b) && Unowned(fs', b)
  {
    FlipCounts(fs, b);
    ClearIsUnowned(fs, b);
    FewerPointers(fs, Mark(fs, b));
  }

  // ------------------------------------------------------------ bytes of files

  function Splice(old_: Block, off: nat, chunk: seq<Byte>): (r: Block)
    requires off + |chunk| <= BLOCK_SIZE
    ensures forall k :: 0 <= k < BLOCK_SIZE ==> r[k] == if off <= k < off + |chunk| then chunk[k - off] else old_[k]
  {
    old_[..off] + chunk + old_[off + |chunk|..]
  }

  /** The k-th byte lies in the written part of block pos/512 exactly when it is
      one of the positions written. */
  lemma Position(pos: nat, n: nat, k: nat)
    requires pos % BLOCK_SIZE + n <= BLOCK_SIZE
    ensures pos <= k < pos + n <==>
              k / BLOCK_SIZE == pos / BLOCK_SIZE && pos % BLOCK_SIZE <= k % BLOCK_SIZE < pos % BLOCK_SIZE + n
    ensures pos <= k < pos + n ==> k % BLOCK_SIZE - pos % BLOCK_SIZE == k - pos
  {}

  /** One chunk changes the bytes it covers and no other byte of any file. */
  lemma PlaceBytes(fs: Fs, i: nat, pos: nat, chunk: seq<Byte>, d: Word, p: nat, j: nat, k: nat)
    requires Shaped(fs) && Owned(fs)
    requires i < |fs.inodes| && j < |fs.inodes| && pos < MAX_FILE && k < MAX_FILE
    requires pos % BLOCK_SIZE + |chunk| <= BLOCK_SIZE && Placeable(fs, i, pos / BLOCK_SIZE, d, p)
    ensures var data := Splice(BlockOf(fs.disk, fs.inodes[i], pos / BLOCK_SIZE), pos % BLOCK_SIZE, chunk);
            var fs' := Place(fs, i, pos / BLOCK_SIZE, d, p, data);
            ByteAt(fs'.disk, fs'.inodes[j], k) == if j == i && pos <= k < pos + |chunk| then chunk[k - pos]
                                                  else ByteAt(fs.disk, fs.inodes[j], k)
  {
    var data := Splice(BlockOf(fs.disk, fs.inodes[i], pos / BLOCK_SIZE), pos % BLOCK_SIZE, chunk);
    PlaceBlocks(fs, i, pos / BLOCK_SIZE, d, p, data, j, k / BLOCK_SIZE);
    Position(pos, |chunk|, k);
  }

  /** No block was given back, and those taken are below all that are left. */
  ghost predicate Taken(fs0: Fs, fs: Fs)
    requires Shaped(fs0) && Shaped(fs)
  {
    && (forall q {:trigger Marked(fs0, q)} :: Marked(fs0, q) ==> Marked(fs, q))
    && (forall q, r {:trigger Marked(fs, q), Marked(fs, r)} ::
          Marked(fs, q) && !Marked(fs0, q) && InData(fs, r) && !Marked(fs, r) ==> q < r)
  }

  /** Free blocks hold what they held. */
  ghost predicate Untouched(fs0: Fs, fs: Fs)
    requires Shaped(fs0) && Shaped(fs) && |fs.disk| == |fs0.disk|
  {
    forall q: nat {:trigger fs.disk[q]} :: InData(fs, q) && !Marked(fs, q) ==> fs.disk[q] == fs0.disk[q]
  }

  lemma TakenOn(fs0: Fs, fs1: Fs, fs2: Fs)
    requires Shaped(fs0) && Shaped(fs1) && Shaped(fs2) && Taken(fs0, fs1) && Taken(fs1, fs2)
    requires fs0.dataStart == fs1.dataStart == fs2.dataStart && |fs0.disk| == |fs1.disk| == |fs2.disk|
    ensures Taken(fs0, fs2)
  {
    forall q, r | Marked(fs2, q) && !Marked(fs0, q) && InData(fs2, r) && !Marked(fs2, r) ensures q < r {
      assert !Marked(fs1, r);
    }
  }

  /** `fs` is `fs0` after `data` went into file i at `pos`, its inode not yet
      resized: ownership holds, and no byte differs but those written. */
  ghost predicate Wrote(fs0: Fs, fs: Fs, i: nat, pos: nat, data: seq<Byte>) {
    && Shaped(fs0) && Shaped(fs) && Owned(fs) && CountsFree(fs)
    && fs.dataStart == fs0.dataStart && |fs.disk| == |fs0.disk| && |fs.inodes| == |fs0.inodes|
    && i < |fs.inodes|
    && fs.inodes[i] == fs0.inodes[i].(blocks := fs.inodes[i].blocks, indirect := fs.inodes[i].indirect)
    && (forall j :: 0 <= j < |fs.inodes| && j != i ==> fs.inodes[j] == fs0.inodes[j])
    && Taken(fs0, fs) && Untouched(fs0, fs)
    && (forall j, k :: 0 <= j < |fs.inodes| && 0 <= k < MAX_FILE ==>
          ByteAt(fs.disk, fs.inodes[j], k) == if j == i && pos <= k < pos + |data| then data[k - pos]
                                              else ByteAt(fs0.disk, fs0.inodes[j], k))
  }

  lemma PlaceLeavesFree(fs0: Fs, fs: Fs, i: nat, s: nat, d: Word, p: nat, data: Block)
    requires Shaped(fs0) && Shaped(fs) && |fs.disk| == |fs0.disk| && Taken(fs0, fs) && Untouched(fs0, fs)
    requires i < |fs.inodes| && s < MAX_BLOCKS && Placeable(fs, i, s, d, p)
    ensures var fs' := Place(fs, i, s, d, p, data); Shaped(fs') && Taken(fs0, fs') && Untouched(fs0, fs')
  {
    var fs' := Place(fs, i, s, d, p, data);
    assert forall q :: Marked(fs', q) == Marked(fs, q);
  }

  lemma WroteMore(fs0: Fs, fs: Fs, i: nat, pos: nat, data: seq<Byte>, chunk: seq<Byte>, d: Word, p: nat)
    requires Wrote(fs0, fs, i, pos, data)
    requires var at := pos + |data|;
             at < MAX_FILE && at % BLOCK_SIZE + |chunk| <= BLOCK_SIZE && Placeable(fs, i, at / BLOCK_SIZE, d, p)
    ensures var at := pos + |data|;
            var block := Splice(BlockOf(fs.disk, fs.inodes[i], at / BLOCK_SIZE), at % BLOCK_SIZE, chunk);
            Wrote(fs0, Place(fs, i, at / BLOCK_SIZE, d, p, block), i, pos, data + chunk)
  {
    var at := pos + |data|;
    var block := Splice(BlockOf(fs.disk, fs.inodes[i], at / BLOCK_SIZE), at % BLOCK_SIZE, chunk);
    PlaceKeepsOwnership(fs, i, at / BLOCK_SIZE, d, p, block);
    var fs' := Place(fs, i, at / BLOCK_SIZE, d, p, block);
    PlaceLeavesFree(fs0, fs, i, at / BLOCK_SIZE, d, p, block);
    forall j, k | 0 <= j < |fs.inodes| && 0 <= k < MAX_FILE
      ensures ByteAt(fs'.disk, fs'.inodes[j], k) == if j == i && pos <= k < pos + |data + chunk| then (data + chunk)[k - pos]
                                                    else ByteAt(fs0.disk, fs0.inodes[j], k)
    {
      PlaceBytes(fs, i, at, chunk, d, p, j, k);
    }
  }

  /** Resizing the inode completes the write: the state is valid again and the
      only file that changed reads as the old contents overwritten. */
  function Resize(fs: Fs, i: nat, end: nat, now: nat): Fs
    requires i < |fs.inodes|
  {
    fs.(inodes := fs.inodes[i := fs.inodes[i].(size := if end > fs.inodes[i].size then end else fs.inodes[i].size, modified := now)])
  }

  lemma ResizeKeepsOwnership(fs: Fs, i: nat, end: nat, now: nat)
    requires Shaped(fs) && Owned(fs) && i < |fs.inodes|
    ensures var fs' := Resize(fs, i, end, now); Shaped(fs') && Owned(fs') && (NoLeak(fs) ==> NoLeak(fs'))
  {
    var fs' := Resize(fs, i, end, now);
    forall j, t | 0 <= j < |fs.inodes| && 0 <= t <= INDIRECT_SLOT
      ensures Ptr(fs'.disk, fs'.inodes[j], t) == Ptr(fs.disk, fs.inodes[j], t)
    {}
    FewerPointers(fs, fs');
    if NoLeak(fs) { SamePointersNoLeak(fs, fs'); }
  }

  /** Keeping all pointers, and marking nothing else, leaks nothing. */
  lemma SamePointersNoLeak(fs: Fs, fs': Fs)
    requires Shaped(fs) && Shaped(fs') && NoLeak(fs) && |fs.inodes| == |fs'.inodes|
    requires forall q :: Marked(fs', q) ==> Marked(fs, q)
    requires forall j, t :: 0 <= j < |fs.inodes| && 0 <= t <= INDIRECT_SLOT ==>
               Ptr(fs'.disk, fs'.inodes[j], t) == Ptr(fs.disk, fs.inodes[j], t)
    ensures NoLeak(fs')
  {
    forall q | Marked(fs', q) ensures IsOwned(fs', q) {
      assert Marked(fs, q);
      var j, t :| 0 <= j < |fs.inodes| && 0 <= t <= INDIRECT_SLOT && Ptr(fs.disk, fs.inodes[j], t) == q;
      assert Ptr(fs'.disk, fs'.inodes[j], t) == q;
    }
  }

  lemma WriteCompletes(fs0: Fs, fs: Fs, i: nat, pos: nat, data: seq<Byte>, now: nat)
    requires Valid(fs0) && Wrote(fs0, fs, i, pos, data) && NoLeak(fs) && fs0.inodes[i].used && pos + |data| <= MAX_FILE
    ensures var fs' := Resize(fs, i, pos + |data|, now);
            && Valid(fs')
            && Content(fs'.disk, fs'.inodes[i]) == Overwrite(Content(fs0.disk, fs0.inodes[i]), pos, data)
            && forall j :: 0 <= j < |fs'.inodes| && j != i ==>
                 fs'.inodes[j] == fs0.inodes[j] && Content(fs'.disk, fs'.inodes[j]) == Content(fs0.disk, fs0.inodes[j])
  {
    var fs' := Resize(fs, i, pos + |data|, now);
    ResizeKeepsOwnership(fs, i, pos + |data|, now);
    forall j, k | 0 <= j < |fs'.inodes| && 0 <= k < MAX_FILE
      ensures ByteAt(fs'.disk, fs'.inodes[j], k) == if j == i && pos <= k < pos + |data| then data[k - pos]
                                                    else ByteAt(fs0.disk, fs0.inodes[j], k)
    {
      assert ByteAt(fs'.disk, fs'.inodes[j], k) == ByteAt(fs.disk, fs.inodes[j], k);
    }
    forall j | 0 <= j < |fs'.inodes| ensures InodeOk(fs'.inodes[j]) && ZeroTail(fs'.disk, fs'.inodes[j]) {
      assert InodeOk(fs0.inodes[j]) && ZeroTail(fs0.disk, fs0.inodes[j]);
    }
  }

  // ------------------------------------------------------------- room needed

  /** Slots lo..hi-1 of a file that have no block yet. */
  function Missing(disk: seq<Block>, n: Inode, lo: nat, hi: nat): (m: nat)
    requires lo <= hi <= MAX_BLOCKS && |n.blocks| == DIRECT_BLOCKS
    ensures m <= hi - lo
    decreases hi - lo
  {
    if lo == hi then 0 else (if Ptr(disk, n, lo) == 0 then 1 else 0) + Missing(disk, n, lo + 1, hi)
  }

  lemma {:induction false} MissingSplits(disk: seq<Block>, n: Inode, lo: nat, mid: nat, hi: nat)
    requires lo <= mid <= hi <= MAX_BLOCKS && |n.blocks| == DIRECT_BLOCKS
    ensures Missing(disk, n, lo, hi) == Missing(disk, n, lo, mid) + Missing(disk, n, mid, hi)
    decreases mid - lo
  {
    if lo < mid { MissingSplits(disk, n, lo + 1, mid, hi); }
  }

  /** First block past those a write of n bytes at pos touches. */
  function EndBlock(pos: nat, n: nat): nat {
    if n == 0 then pos / BLOCK_SIZE else (pos + n - 1) / BLOCK_SIZE + 1
  }

  /** Fresh blocks a write needs: the missing slots, and the indirect block if
      the write reaches past the direct slots of a file without one. */
  function Needed(disk: seq<Block>, n: Inode, pos: nat, len: nat): nat
    requires pos + len <= MAX_FILE && |n.blocks| == DIRECT_BLOCKS
  {
    if len == 0 then 0
    else Missing(disk, n, pos / BLOCK_SIZE, EndBlock(pos, len))
         + (if EndBlock(pos, len) > DIRECT_BLOCKS && n.indirect == 0 then 1 else 0)
  }

  /** The one way a write goes wrong: the last free block became the indirect
      block, and none was left for the data it was to point at. The new indirect
      block then stays unwritten. */
  predicate LosesIndirect(disk: seq<Block>, n: Inode, pos: nat, len: nat, free: nat)
    requires pos + len <= MAX_FILE && |n.blocks| == DIRECT_BLOCKS
  {
    && len > 0 && EndBlock(pos, len) > DIRECT_BLOCKS && n.indirect == 0
    && free == 1 + (if pos / BLOCK_SIZE < DIRECT_BLOCKS then Missing(disk, n, pos / BLOCK_SIZE, DIRECT_BLOCKS) else 0)
  }

  // ------------------------------------------------- the abstract file system

  lemma FilesHas(disk: seq<Block>, inodes: seq<Inode>, i: nat)
    requires Listed(inodes) && i < |inodes| && inodes[i].used
    ensures inodes[i].name in Files(disk, inodes) && Files(disk, inodes)[inodes[i].name] == Content(disk, inodes[i])
  {}

  /** Same file under another inode or card: same name, and same contents if used. */
  ghost predicate SameFile(disk: seq<Block>, n: Inode, disk': seq<Block>, n': Inode)
    requires |n.blocks| == |n'.blocks| == DIRECT_BLOCKS && n.size <= MAX_FILE && n'.size <= MAX_FILE
  {
    n.used == n'.used && (n.used ==> n.name == n'.name && Content(disk, n) == Content(disk', n'))
  }

  ghost predicate OnlyFile(disk: seq<Block>, inodes: seq<Inode>, disk': seq<Block>, inodes': seq<Inode>, i: nat) {
    && Listed(inodes) && Listed(inodes') && |inodes| == |inodes'| && i < |inodes|
    && forall j :: 0 <= j < |inodes| && j != i ==> SameFile(disk, inodes[j], disk', inodes'[j])
  }

  lemma OtherNameStays(disk: seq<Block>, inodes: seq<Inode>, disk': seq<Block>, inodes': seq<Inode>, i: nat, name: string)
    requires OnlyFile(disk, inodes, disk', inodes', i) && name in Files(disk, inodes)
    requires inodes[i].used ==> name != inodes[i].name
    ensures name in Files(disk', inodes') && Files(disk', inodes')[name] == Files(disk, inodes)[name]
  {
    var j :| 0 <= j < |inodes| && inodes[j].used && inodes[j].name == name;
    assert SameFile(disk, inodes[j], disk', inodes'[j]);
    FilesHas(disk, inodes, j);
    FilesHas(disk', inodes', j);
  }

  lemma OneKeySet<K, V>(m: map<K, V>, m': map<K, V>, k: K, v: V)
    requires k in m' && m'[k] == v
    requires forall x :: x in m && x != k ==> x in m' && m'[x] == m[x]
    requires forall x :: x in m' && x != k ==> x in m
    ensures m' == m[k := v]
  {}

  lemma OneKeyDropped<K, V>(m: map<K, V>, m': map<K, V>, k: K)
    requires forall x :: x in m && x != k ==> x in m' && m'[x] == m[x]
    requires forall x :: x in m' ==> x in m && x != k
    ensures m' == m - {k}
  {}

  /** Setting inode i changes one entry of the map, to its new contents. */
  lemma FilesSet(disk: seq<Block>, inodes: seq<Inode>, disk': seq<Block>, inodes': seq<Inode>, i: nat)
    requires OnlyFile(disk, inodes, disk', inodes', i) && inodes'[i].used
    requires inodes[i].used ==> inodes[i].name == inodes'[i].name
    ensures Files(disk', inodes') == Files(disk, inodes)[inodes'[i].name := Content(disk', inodes'[i])]
  {
    var m, m' := Files(disk, inodes), Files(disk', inodes');
    forall name | name in m && name != inodes'[i].name ensures name in m' && m'[name] == m[name] {
      OtherNameStays(disk, inodes, disk', inodes', i, name);
    }
    forall name | name in m' && name != inodes'[i].name ensures name in m {
      OtherNameStays(disk', inodes', disk, inodes, i, name);
    }
    FilesHas(disk', inodes', i);
    OneKeySet(m, m', inodes'[i].name, Content(disk', inodes'[i]));
  }

  /** Clearing inode i drops its name. */
  lemma FilesDrop(disk: seq<Block>, inodes: seq<Inode>, disk': seq<Block>, inodes': seq<Inode>, i: nat)
    requires OnlyFile(disk, inodes, disk', inodes', i) && inodes[i].used && !inodes'[i].used
    ensures Files(disk', inodes') == Files(disk, inodes) - {inodes[i].name}
  {
    var m, m' := Files(disk, inodes), Files(disk', inodes');
    forall name | name in m && name != inodes[i].name ensures name in m' && m'[name] == m[name] {
      OtherNameStays(disk, inodes, disk', inodes', i, name);
    }
    forall name | name in m' ensures name in m && name != inodes[i].name {
      NameWasThere(disk, inodes, disk', inodes', i, name);
    }
    OneKeyDropped(m, m', inodes[i].name);
  }

  lemma NameWasThere(disk: seq<Block>, inodes: seq<Inode>, disk': seq<Block>, inodes': seq<Inode>, i: nat, name: string)
    requires OnlyFile(disk, inodes, disk', inodes', i) && inodes[i].used && !inodes'[i].used
    requires name in Files(disk', inodes')
    ensures name in Files(disk, inodes) && name != inodes[i].name
  {
    var j :| 0 <= j < |inodes'| && inodes'[j].used && inodes'[j].name == name;
    assert SameFile(disk, inodes[j], disk', inodes'[j]);
    FilesHas(disk, inodes, j);
  }

  // ---------------------------------------------------------- owner and size

  /** Only inode i is another. */
  ghost predicate OnlyInode(inodes: seq<Inode>, inodes': seq<Inode>, i: nat) {
    && UniqueNames(inodes) && UniqueNames(inodes') && |inodes| == |inodes'| && i < |inodes|
    && forall j :: 0 <= j < |inodes| && j != i ==> inodes'[j] == inodes[j]
  }

  lemma StatsHas(inodes: seq<Inode>, i: nat)
    requires UniqueNames(inodes) && i < |inodes| && inodes[i].used
    ensures inodes[i].name in Stats(inodes) && Stats(inodes)[inodes[i].name] == StatOf(inodes[i])
  {}

  lemma OtherStatStays(inodes: seq<Inode>, inodes': seq<Inode>, i: nat, name: string)
    requires OnlyInode(inodes, inodes', i) && name in Names(inodes) && (inodes[i].used ==> name != inodes[i].name)
    ensures name in Names(inodes') && Stats(inodes')[name] == Stats(inodes)[name]
  {
    var j :| 0 <= j < |inodes| && inodes[j].used && inodes[j].name == name;
    assert inodes'[j] == inodes[j];
    StatsHas(inodes, j);
    StatsHas(inodes', j);
  }

  lemma StatsSet(inodes: seq<Inode>, inodes': seq<Inode>, i: nat)
    requires OnlyInode(inodes, inodes', i) && inodes'[i].used && (inodes[i].used ==> inodes[i].name == inodes'[i].name)
    ensures Stats(inodes') == Stats(inodes)[inodes'[i].name := StatOf(inodes'[i])]
  {
    var m, m', new_ := Stats(inodes), Stats(inodes'), inodes'[i].name;
    forall name | name in m && name != new_ ensures name in m' && m'[name] == m[name] {
      OtherStatStays(inodes, inodes', i, name);
    }
    forall name | name in m' && name != new_ ensures name in m {
      OtherStatStays(inodes', inodes, i, name);
    }
    StatsHas(inodes', i);
    OneKeySet(m, m', new_, StatOf(inodes'[i]));
  }

  lemma StatsDrop(inodes: seq<Inode>, inodes': seq<Inode>, i: nat)
    requires OnlyInode(inodes, inodes', i) && inodes[i].used && !inodes'[i].used
    ensures Stats(inodes') == Stats(inodes) - {inodes[i].name}
  {
    var m, m', gone := Stats(inodes), Stats(inodes'), inodes[i].name;
    forall name | name in m && name != gone ensures name in m' && m'[name] == m[name] {
      OtherStatStays(inodes, inodes', i, name);
    }
    forall name | name in m' ensures name in m && name != gone {
      var j :| 0 <= j < |inodes'| && inodes'[j].used && inodes'[j].name == name;
      assert inodes[j] == inodes'[j];
    }
    OneKeyDropped(m, m', gone);
  }

  /** A write up to `end` leaves every other inode alone, and its own but for the pointers,
      the size and the time. */
  ghost predicate Rewritten(before: seq<Inode>, after: seq<Inode>, i: nat, end: nat, now: nat) {
    && i < |before| == |after|
    && after == before[i := before[i].(blocks := after[i].blocks, indirect := after[i].indirect,
                                       size := Max(before[i].size, end), modified := now)]
  }

  /** So all that is known of the files stays, but for its own file's size and time. */
  lemma RewrittenStats(before: seq<Inode>, after: seq<Inode>, i: nat, end: nat, now: nat)
    requires UniqueNames(before) && Rewritten(before, after, i, end, now) && before[i].used
    ensures var name := before[i].name;
            name in Stats(before) && Stats(after) == Stats(before)[name := Stats(before)[name].(size := Max(before[i].size, end), modified := now)]
  {
    StatsHas(before, i);
    StatsSet(before, after, i);
  }

  lemma WriteRewrites(fs0: Fs, fs: Fs, i: nat, pos: nat, data: seq<Byte>, written: nat, now: nat)
    requires Shaped(fs0) && i < |fs0.inodes| && pos + |data| <= MAX_FILE
    requires Stopped(fs0, fs, i, pos, data, written)
    ensures i < |fs.inodes| && Rewritten(fs0.inodes, Resize(fs, i, pos + written, now).inodes, i, pos + written, now)
  {
    StoppedKeepsInodes(fs0, fs, i, pos, data, written);
  }

  lemma StoppedKeepsInodes(fs0: Fs, fs: Fs, i: nat, pos: nat, data: seq<Byte>, written: nat)
    requires Shaped(fs0) && i < |fs0.inodes| && pos + |data| <= MAX_FILE
    requires Stopped(fs0, fs, i, pos, data, written)
    ensures |fs.inodes| == |fs0.inodes| && forall j :: 0 <= j < |fs.inodes| && j != i ==> fs.inodes[j] == fs0.inodes[j]
    ensures fs.inodes[i] == fs0.inodes[i].(blocks := fs.inodes[i].blocks, indirect := fs.inodes[i].indirect)
  {}

  /** A write is a map update. */
  lemma WriteFiles(fs0: Fs, fs: Fs, i: nat, pos: nat, data: seq<Byte>, now: nat)
    requires Valid(fs0) && Wrote(fs0, fs, i, pos, data) && NoLeak(fs) && fs0.inodes[i].used && pos + |data| <= MAX_FILE
    ensures var fs' := Resize(fs, i, pos + |data|, now);
            var name, before := fs0.inodes[i].name, Files(fs0.disk, fs0.inodes);
            && Valid(fs') && name in before
            && Files(fs'.disk, fs'.inodes) == before[name := Overwrite(before[name], pos, data)]
  {
    WriteCompletes(fs0, fs, i, pos, data, now);
    FilesHas(fs0.disk, fs0.inodes, i);
    var fs' := Resize(fs, i, pos + |data|, now);
    FilesSet(fs0.disk, fs0.inodes, fs'.disk, fs'.inodes, i);
  }

  /** An inode that points nowhere reads as zeros everywhere. */
  lemma NoPointers(disk: seq<Block>, n: Inode)
    requires |n.blocks| == DIRECT_BLOCKS && n.indirect == 0 && forall s :: 0 <= s < DIRECT_BLOCKS ==> n.blocks[s] == 0
    ensures forall s :: 0 <= s <= INDIRECT_SLOT ==> Ptr(disk, n, s) == 0
    ensures forall k :: 0 <= k < MAX_FILE ==> ByteAt(disk, n, k) == 0
  {
    forall s | 0 <= s <= INDIRECT_SLOT ensures Ptr(disk, n, s) == 0 {
      if DIRECT_BLOCKS <= s < INDIRECT_SLOT {
        assert Table(disk, n)[s - DIRECT_BLOCKS] == WordAt(ZeroBlock(), s - DIRECT_BLOCKS) == 0;
      }
    }
  }

  /** Replacing an inode by one that points nowhere keeps ownership. */
  lemma BlankKeepsOwnership(fs: Fs, i: nat, n: Inode)
    requires Shaped(fs) && Owned(fs) && i < |fs.inodes|
    requires n.indirect == 0 && n.blocks == EMPTY_INODE.blocks
    ensures var fs' := fs.(inodes := fs.inodes[i := n]); Shaped(fs') && Owned(fs')
    ensures NoLeak(fs) && InodeOk(fs.inodes[i]) && !fs.inodes[i].used ==> NoLeak(fs.(inodes := fs.inodes[i := n]))
  {
    var fs' := fs.(inodes := fs.inodes[i := n]);
    NoPointers(fs.disk, n);
    if NoLeak(fs) && InodeOk(fs.inodes[i]) && !fs.inodes[i].used {
      NoPointers(fs.disk, fs.inodes[i]);
      SamePointersNoLeak(fs, fs');
    }
    forall j, t | 0 <= j < |fs.inodes| && 0 <= t <= INDIRECT_SLOT
      ensures Ptr(fs'.disk, fs'.inodes[j], t) == if j == i then 0 else Ptr(fs.disk, fs.inodes[j], t)
    {}
    FewerPointers(fs, fs');
  }

  /** Creating a file in a free inode adds one empty file. */
  lemma CreateFiles(fs: Fs, i: nat, n: Inode)
    requires Valid(fs) && i < |fs.inodes| && !fs.inodes[i].used
    requires n.used && n.size == 0 && n.indirect == 0 && n.blocks == EMPTY_INODE.blocks && |n.name| <= MAX_FILENAME
    requires forall j :: 0 <= j < |fs.inodes| && fs.inodes[j].used ==> fs.inodes[j].name != n.name
    ensures var fs' := fs.(inodes := fs.inodes[i := n]);
            var before := Files(fs.disk, fs.inodes);
            Valid(fs') && n.name !in before && Files(fs'.disk, fs'.inodes) == before[n.name := []]
  {
    var fs' := fs.(inodes := fs.inodes[i := n]);
    assert InodeOk(fs.inodes[i]);
    BlankKeepsOwnership(fs, i, n);
    NoPointers(fs.disk, n);
    forall j | 0 <= j < |fs'.inodes| ensures InodeOk(fs'.inodes[j]) && ZeroTail(fs'.disk, fs'.inodes[j]) {
      assert InodeOk(fs.inodes[j]) && ZeroTail(fs.disk, fs.inodes[j]);
    }
    FilesSet(fs.disk, fs.inodes, fs'.disk, fs'.inodes, i);
    assert Content(fs'.disk, n) == [];
  }

  lemma {:induction false} CountFresh(bits: seq<bool>)
    requires forall k :: 0 <= k < |bits| ==> !bits[k]
    ensures CountClear(bits) == |bits|
  {
    if bits != [] { CountFresh(bits[1..]); }
  }

  /** A formatted card: every bit clear, every inode empty. */
  lemma FreshIsValid(fs: Fs)
    requires Shaped(fs) && fs.free == |fs.disk| - fs.dataStart
    requires forall k :: 0 <= k < |fs.bitmap| ==> !fs.bitmap[k]
    requires forall i :: 0 <= i < |fs.inodes| ==> fs.inodes[i] == EMPTY_INODE
    ensures Valid(fs) && Files(fs.disk, fs.inodes) == map[]
  {
    CountFresh(fs.bitmap[..fs.free]);
    NoPointers(fs.disk, EMPTY_INODE);
  }

  /** An inode without an indirect block lists no pointers. */
  lemma EmptyTable(disk: seq<Block>, n: Inode)
    requires n.indirect == 0
    ensures Table(disk, n) == seq(POINTERS_PER_BLOCK, _ => 0)
  {
    forall k | 0 <= k < POINTERS_PER_BLOCK ensures Table(disk, n)[k] == 0 {
      assert WordAt(ZeroBlock(), k) == 0;
    }
  }

  ghost predicate Sound(fs: Fs) {
    Shaped(fs) && Owned(fs) && CountsFree(fs)
  }

  /** Fresh blocks that slot `s` of an inode still needs. */
  function SlotNeeds(disk: seq<Block>, n: Inode, s: nat): nat
    requires s < MAX_BLOCKS && |n.blocks| == DIRECT_BLOCKS
  {
    (if s >= DIRECT_BLOCKS && n.indirect == 0 then 1 else 0) + (if Ptr(disk, n, s) == 0 then 1 else 0)
  }

  /** One block was taken, and no slot has it yet. */
  ghost predicate OneTaken(before: Fs, fs: Fs, b: nat)
    requires Shaped(before) && Shaped(fs)
  {
    && before.free > 0 && InData(before, b) && !Marked(before, b) && fs == Mark(before, b)
    && Unowned(fs, b) && Taken(before, fs)
  }

  ghost predicate OnlyTook(before: Fs, fs: Fs, s: nat, d: nat, p: nat)
    requires Shaped(before) && Shaped(fs)
  {
    forall q {:trigger Marked(fs, q)} :: Marked(fs, q) ==> Marked(before, q) || q == d || (s >= DIRECT_BLOCKS && q == p)
  }

  /** The indirect block that slot `s` of `n` needs was there, or has been taken. */
  ghost predicate IndirectReady(before: Fs, fs: Fs, n: Inode, s: nat, p: nat)
    requires Shaped(before) && Shaped(fs)
  {
    if s >= DIRECT_BLOCKS && n.indirect == 0 then OneTaken(before, fs, p) else p == n.indirect && fs == before
  }

  /** The data block of slot `s` was there, or has been taken. */
  ghost predicate DataReady(before: Fs, fs: Fs, n: Inode, s: nat, d: nat)
    requires Shaped(before) && Shaped(fs) && s < MAX_BLOCKS && |n.blocks| == DIRECT_BLOCKS
  {
    if Ptr(before.disk, n, s) == 0 then OneTaken(before, fs, d) else d == Ptr(before.disk, n, s) && fs == before
  }

  /** Slot `s` of file i can be placed with `d` and `p`: taken from the free blocks where
      it needed them, and nothing else was. */
  ghost predicate SlotReady(before: Fs, fs: Fs, i: nat, s: nat, d: nat, p: nat)
    requires Shaped(before) && i < |before.inodes| && s < MAX_BLOCKS
  {
    && Sound(fs) && fs == before.(bitmap := fs.bitmap, free := fs.free)
    && Placeable(fs, i, s, d, p) && Taken(before, fs) && OnlyTook(before, fs, s, d, p)
    && fs.free + SlotNeeds(before.disk, before.inodes[i], s) == before.free
  }

  /** With the indirect block ready, the data block makes the slot ready. */
  lemma SlotPrepared(before: Fs, found: Fs, fs: Fs, i: nat, s: nat, d: nat, p: nat)
    requires Sound(before) && Sound(found) && Sound(fs) && i < |before.inodes| && s < MAX_BLOCKS
    requires IndirectReady(before, found, before.inodes[i], s, p) && DataReady(found, fs, before.inodes[i], s, d)
    ensures SlotReady(before, fs, i, s, d, p)
  {
    PreparingTakes(before, found, fs, before.inodes[i], s, d, p);
    PreparedIsPlaceable(before, found, fs, i, s, d, p);
  }

  lemma PreparedIsPlaceable(before: Fs, found: Fs, fs: Fs, i: nat, s: nat, d: nat, p: nat)
    requires Shaped(before) && Sound(found) && Shaped(fs) && i < |before.inodes| && s < MAX_BLOCKS
    requires IndirectReady(before, found, before.inodes[i], s, p) && DataReady(found, fs, before.inodes[i], s, d)
    ensures Placeable(fs, i, s, d, p)
  {
    assert SlotOk(found, i, s) && SlotOk(found, i, INDIRECT_SLOT);
  }

  lemma PreparingTakes(before: Fs, found: Fs, fs: Fs, n: Inode, s: nat, d: nat, p: nat)
    requires Shaped(before) && Shaped(found) && Shaped(fs) && s < MAX_BLOCKS && |n.blocks| == DIRECT_BLOCKS
    requires IndirectReady(before, found, n, s, p) && DataReady(found, fs, n, s, d)
    ensures Taken(before, fs) && OnlyTook(before, fs, s, d, p)
  {
    assert Taken(before, found) && OnlyTook(before, found, s, d, p);
    TakenOn(before, found, fs);
  }

  /** Taking the first clear block. */
  lemma FirstTaken(fs: Fs, b: nat)
    requires Shaped(fs) && fs.free > 0 && InData(fs, b) && forall q :: fs.dataStart <= q < b ==> Marked(fs, q)
    ensures Taken(fs, Mark(fs, b))
  {
    var fs' := Mark(fs, b);
    forall q: nat, r: nat | Marked(fs', q) && !Marked(fs, q) && InData(fs', r) && !Marked(fs', r) ensures q < r {
      assert r >= b || Marked(fs, r);
    }
  }

  lemma WroteAfterMarking(fs0: Fs, fs: Fs, fs': Fs, i: nat, pos: nat, data: seq<Byte>)
    requires Wrote(fs0, fs, i, pos, data) && Sound(fs') && Taken(fs, fs')
    requires fs' == fs.(bitmap := fs'.bitmap, free := fs'.free)
    ensures Wrote(fs0, fs', i, pos, data)
  {
    TakenOn(fs0, fs, fs');
  }

  /** Fresh blocks that are placed at once are not leaked. */
  lemma PlaceLeaksNothing(before: Fs, fs: Fs, i: nat, s: nat, d: Word, p: nat, data: Block)
    requires Shaped(before) && Shaped(fs) && Owned(fs) && NoLeak(before)
    requires fs == before.(bitmap := fs.bitmap, free := fs.free)
    requires i < |fs.inodes| && s < MAX_BLOCKS && Placeable(fs, i, s, d, p)
    requires forall q :: Marked(fs, q) ==> Marked(before, q) || q == d || (s >= DIRECT_BLOCKS && q == p)
    ensures var fs' := Place(fs, i, s, d, p, data); Shaped(fs') && NoLeak(fs')
  {
    PlacePointers(fs, i, s, d, p, data);
    var fs' := Place(fs, i, s, d, p, data);
    assert Ptr(fs'.disk, fs'.inodes[i], s) == d && (s >= DIRECT_BLOCKS ==> Ptr(fs'.disk, fs'.inodes[i], INDIRECT_SLOT) == p);
    forall q | Marked(fs', q) ensures IsOwned(fs', q) {
      assert Marked(fs, q);
      if q != d && !(s >= DIRECT_BLOCKS && q == p) {
        assert Marked(before, q);
        var j, t :| 0 <= j < |fs.inodes| && 0 <= t <= INDIRECT_SLOT && Ptr(fs.disk, fs.inodes[j], t) == q;
        assert Ptr(fs'.disk, fs'.inodes[j], t) == q;
      }
    }
  }

  /** The pointers a later round of the same write relies on. */
  ghost predicate LaterSlotsKept(disk: seq<Block>, n: Inode, disk': seq<Block>, n': Inode, s: nat)
    requires |n.blocks| == |n'.blocks| == DIRECT_BLOCKS && s < MAX_BLOCKS
  {
    && (forall t :: s < t < MAX_BLOCKS ==> Ptr(disk', n', t) == Ptr(disk, n, t))
    && (if s < DIRECT_BLOCKS then n'.indirect == n.indirect else n'.indirect != 0)
  }

  /** One round of a write, once its blocks are there. */
  lemma RoundDone(fs0: Fs, fs: Fs, i: nat, pos: nat, done: seq<Byte>, chunk: seq<Byte>, d: Word, p: nat)
    requires Wrote(fs0, fs, i, pos, done)
    requires pos + |done| < MAX_FILE && (pos + |done|) % BLOCK_SIZE + |chunk| <= BLOCK_SIZE
    requires Placeable(fs, i, (pos + |done|) / BLOCK_SIZE, d, p)
    ensures var s := (pos + |done|) / BLOCK_SIZE;
            var fs' := Place(fs, i, s, d, p, Splice(BlockOf(fs.disk, fs.inodes[i], s), (pos + |done|) % BLOCK_SIZE, chunk));
            Wrote(fs0, fs', i, pos, done + chunk) && LaterSlotsKept(fs.disk, fs.inodes[i], fs'.disk, fs'.inodes[i], s)
  {
    var s := (pos + |done|) / BLOCK_SIZE;
    WroteMore(fs0, fs, i, pos, done, chunk, d, p);
    PlacePointers(fs, i, s, d, p, Splice(BlockOf(fs.disk, fs.inodes[i], s), (pos + |done|) % BLOCK_SIZE, chunk));
  }

  /** A round stored its chunk, taking the blocks its slot needed. */
  ghost predicate RoundOk(fs0: Fs, before: Fs, fs: Fs, i: nat, pos: nat, done: seq<Byte>, chunk: seq<Byte>) {
    && Shaped(before) && i < |before.inodes| && (pos + |done|) / BLOCK_SIZE < MAX_BLOCKS
    && Wrote(fs0, fs, i, pos, done + chunk) && NoLeak(fs)
    && var s := (pos + |done|) / BLOCK_SIZE;
       && LaterSlotsKept(before.disk, before.inodes[i], fs.disk, fs.inodes[i], s)
       && fs.free + SlotNeeds(before.disk, before.inodes[i], s) == before.free
  }

  /** Chunk `chunk` at byte `pos` of file i, its slot placed with `d` and `p`. */
  function StoreAt(fs: Fs, i: nat, pos: nat, chunk: seq<Byte>, d: nat, p: nat): Fs
    requires Shaped(fs) && i < |fs.inodes| && pos < MAX_FILE && pos % BLOCK_SIZE + |chunk| <= BLOCK_SIZE
    requires 0 < d < |fs.disk| && (pos / BLOCK_SIZE >= DIRECT_BLOCKS ==> 0 < p < |fs.disk|)
  {
    var s := pos / BLOCK_SIZE;
    Place(fs, i, s, d, p, Splice(BlockOf(fs.disk, fs.inodes[i], s), pos % BLOCK_SIZE, chunk))
  }

  /** A round, from before its blocks were taken. */
  lemma RoundCompletes(fs0: Fs, before: Fs, fs: Fs, i: nat, pos: nat, done: seq<Byte>, chunk: seq<Byte>, d: Word, p: nat)
    requires Wrote(fs0, before, i, pos, done) && NoLeak(before)
    requires pos + |done| < MAX_FILE && (pos + |done|) % BLOCK_SIZE + |chunk| <= BLOCK_SIZE
    requires SlotReady(before, fs, i, (pos + |done|) / BLOCK_SIZE, d, p)
    ensures RoundOk(fs0, before, StoreAt(fs, i, pos + |done|, chunk, d, p), i, pos, done, chunk)
  {
    var s := (pos + |done|) / BLOCK_SIZE;
    WroteAfterMarking(fs0, before, fs, i, pos, done);
    RoundDone(fs0, fs, i, pos, done, chunk, d, p);
    PlaceLeaksNothing(before, fs, i, s, d, p, Splice(BlockOf(fs.disk, fs.inodes[i], s), (pos + |done|) % BLOCK_SIZE, chunk));
  }

  // ---------------------------------------------------- where a write stands

  /** Between rounds: the slots ahead are as before the write, and what was taken
      is what the part already written needed. */
  ghost predicate Underway(disk0: seq<Block>, n0: Inode, free0: nat, disk: seq<Block>, n: Inode, free: nat, pos: nat, written: nat)
    requires |n0.blocks| == |n.blocks| == DIRECT_BLOCKS && pos + written <= MAX_FILE
  {
    && (forall t :: EndBlock(pos, written) <= t < MAX_BLOCKS ==> Ptr(disk, n, t) == Ptr(disk0, n0, t))
    && (if written > 0 && EndBlock(pos, written) > DIRECT_BLOCKS then n.indirect != 0 else n.indirect == n0.indirect)
    && free + Needed(disk0, n0, pos, written) == free0
  }

  /** The next slot of a write, and how what it needs adds up. */
  lemma NextRound(disk0: seq<Block>, n0: Inode, free0: nat, disk: seq<Block>, n: Inode, free: nat, pos: nat, written: nat, more: nat)
    requires |n0.blocks| == |n.blocks| == DIRECT_BLOCKS && 0 < more && pos + written + more <= MAX_FILE
    requires Underway(disk0, n0, free0, disk, n, free, pos, written)
    requires written == 0 || (pos + written) % BLOCK_SIZE == 0
    requires (pos + written) % BLOCK_SIZE + more <= BLOCK_SIZE
    ensures var s := (pos + written) / BLOCK_SIZE;
            && EndBlock(pos, written) == s && EndBlock(pos, written + more) == s + 1
            && Needed(disk0, n0, pos, written + more) == Needed(disk0, n0, pos, written) + SlotNeeds(disk, n, s)
  {
    var s := (pos + written) / BLOCK_SIZE;
    MissingSplits(disk0, n0, pos / BLOCK_SIZE, s, s + 1);
    assert Missing(disk0, n0, s, s + 1) == if Ptr(disk0, n0, s) == 0 then 1 else 0;
  }

  /** Needing more for a part means needing more for the whole. */
  lemma NeededGrows(disk: seq<Block>, n: Inode, pos: nat, part: nat, whole: nat)
    requires |n.blocks| == DIRECT_BLOCKS && part <= whole && pos + whole <= MAX_FILE
    ensures Needed(disk, n, pos, part) <= Needed(disk, n, pos, whole)
  {
    if part > 0 {
      MissingSplits(disk, n, pos / BLOCK_SIZE, EndBlock(pos, part), EndBlock(pos, whole));
    }
  }

  /** Running out at slot s with one block left is exactly losing the indirect block. */
  lemma OutAtIndirect(disk0: seq<Block>, n0: Inode, free0: nat, disk: seq<Block>, n: Inode, pos: nat, written: nat, len: nat)
    requires |n0.blocks| == |n.blocks| == DIRECT_BLOCKS && written < len && pos + len <= MAX_FILE
    requires Underway(disk0, n0, free0, disk, n, 1, pos, written)
    requires written == 0 || (pos + written) % BLOCK_SIZE == 0
    requires (pos + written) / BLOCK_SIZE >= DIRECT_BLOCKS && n.indirect == 0
    ensures LosesIndirect(disk0, n0, pos, len, free0)
  {}

  /** Running out anywhere else loses nothing. */
  lemma OutElsewhere(disk0: seq<Block>, n0: Inode, free0: nat, disk: seq<Block>, n: Inode, free: nat, pos: nat, written: nat, len: nat)
    requires |n0.blocks| == |n.blocks| == DIRECT_BLOCKS && written < len && pos + len <= MAX_FILE
    requires Underway(disk0, n0, free0, disk, n, free, pos, written)
    requires written == 0 || (pos + written) % BLOCK_SIZE == 0
    requires SlotNeeds(disk, n, (pos + written) / BLOCK_SIZE) > free
    requires !((pos + written) / BLOCK_SIZE >= DIRECT_BLOCKS && n.indirect == 0 && free == 1)
    ensures !LosesIndirect(disk0, n0, pos, len, free0)
  {
    var lo, s := pos / BLOCK_SIZE, (pos + written) / BLOCK_SIZE;
    assert EndBlock(pos, written) == s;
    if s < DIRECT_BLOCKS {
      MissingSplits(disk0, n0, lo, s, DIRECT_BLOCKS);
      assert Missing(disk0, n0, s, DIRECT_BLOCKS) > 0;
    } else if n.indirect != 0 && n0.indirect == 0 {
      var mid := if lo < DIRECT_BLOCKS then DIRECT_BLOCKS else lo;
      MissingSplits(disk0, n0, lo, mid, s);
      EmptyTable(disk0, n0);
      assert Ptr(disk0, n0, mid) == 0 && Missing(disk0, n0, mid, s) > 0;
      assert lo >= DIRECT_BLOCKS ==> Missing(disk0, n0, lo, mid) == 0;
    } else {
      assert Missing(disk0, n0, s, s) == 0;
    }
  }

  /** Length of the next chunk: to the end of the block or of the data. */
  function ChunkLen(at: nat, left: nat): (n: nat)
    ensures n <= left && at % BLOCK_SIZE + n <= BLOCK_SIZE
    ensures left > 0 ==> n > 0
    ensures n < left ==> (at + n) % BLOCK_SIZE == 0
  {
    if BLOCK_SIZE - at % BLOCK_SIZE > left then left else BLOCK_SIZE - at % BLOCK_SIZE
  }

  /** What it means that the next slot needs more blocks than are left. */
  lemma RunsOut(disk0: seq<Block>, n0: Inode, free0: nat, disk: seq<Block>, n: Inode, free: nat, pos: nat, written: nat, len: nat)
    requires |n0.blocks| == |n.blocks| == DIRECT_BLOCKS && written < len && pos + len <= MAX_FILE
    requires Underway(disk0, n0, free0, disk, n, free, pos, written)
    requires written == 0 || (pos + written) % BLOCK_SIZE == 0
    requires SlotNeeds(disk, n, (pos + written) / BLOCK_SIZE) > free
    ensures Needed(disk0, n0, pos, len) > free0
    ensures (pos + written) / BLOCK_SIZE >= DIRECT_BLOCKS && n.indirect == 0 && free == 1 <==> LosesIndirect(disk0, n0, pos, len, free0)
  {
    var more := ChunkLen(pos + written, len - written);
    NextRound(disk0, n0, free0, disk, n, free, pos, written, more);
    NeededGrows(disk0, n0, pos, written + more, len);
    if (pos + written) / BLOCK_SIZE >= DIRECT_BLOCKS && n.indirect == 0 && free == 1 {
      OutAtIndirect(disk0, n0, free0, disk, n, pos, written, len);
    } else {
      OutElsewhere(disk0, n0, free0, disk, n, free, pos, written, len);
    }
  }

  /** A write of `data` at `pos` into file i, `written` bytes in. */
  ghost predicate Midway(fs0: Fs, fs: Fs, i: nat, pos: nat, data: seq<Byte>, written: nat)
    requires pos + |data| <= MAX_FILE && written <= |data|
  {
    && Wrote(fs0, fs, i, pos, data[..written]) && NoLeak(fs)
    && Underway(fs0.disk, fs0.inodes[i], fs0.free, fs.disk, fs.inodes[i], fs.free, pos, written)
    && (written == 0 || written == |data| || (pos + written) % BLOCK_SIZE == 0)
  }

  lemma MidwayStart(fs0: Fs, i: nat, pos: nat, data: seq<Byte>)
    requires Valid(fs0) && i < |fs0.inodes| && pos + |data| <= MAX_FILE
    ensures Midway(fs0, fs0, i, pos, data, 0)
  {
    assert InodeOk(fs0.inodes[i]);
  }

  /** After one more chunk the write is still under way. */
  lemma MidwayOn(fs0: Fs, fs: Fs, fs': Fs, i: nat, pos: nat, data: seq<Byte>, written: nat, more: nat)
    requires pos + |data| <= MAX_FILE && written < |data| && more == ChunkLen(pos + written, |data| - written)
    ensures Midway(fs0, fs, i, pos, data, written) && RoundOk(fs0, fs, fs', i, pos, data[..written], data[written..written + more])
            ==> Midway(fs0, fs', i, pos, data, written + more)
  {
    if Midway(fs0, fs, i, pos, data, written) && RoundOk(fs0, fs, fs', i, pos, data[..written], data[written..written + more]) {
      assert data[..written] + data[written..written + more] == data[..written + more];
      NextRound(fs0.disk, fs0.inodes[i], fs0.free, fs.disk, fs.inodes[i], fs.free, pos, written, more);
    }
  }

  /** The last free block has become the indirect block of file i, and stayed as it was. */
  ghost predicate LostTo(fs1: Fs, fs: Fs, i: nat, b: nat)
    requires Shaped(fs1) && i < |fs1.inodes|
  {
    && fs1.free == 1 && CountsFree(fs1) && fs1.inodes[i].indirect == 0 && InData(fs1, b) && !Marked(fs1, b)
    && fs == Mark(fs1, b).(inodes := fs1.inodes[i := fs1.inodes[i].(indirect := b)])
  }

  /** A round had too few blocks for its slot. */
  ghost predicate RoundStuck(before: Fs, fs: Fs, i: nat, s: nat, b: nat) {
    && Shaped(before) && i < |before.inodes| && s < MAX_BLOCKS
    && SlotNeeds(before.disk, before.inodes[i], s) > before.free
    && if s >= DIRECT_BLOCKS && before.inodes[i].indirect == 0 && before.free == 1 then LostTo(before, fs, i, b) else fs == before
  }

  /** With too few blocks, at most the indirect block has been taken. */
  lemma RoundIsStuck(before: Fs, fs: Fs, i: nat, s: nat, p: nat)
    requires Sound(before) && Shaped(fs) && i < |before.inodes| && s < MAX_BLOCKS
    requires SlotNeeds(before.disk, before.inodes[i], s) > before.free
    requires if s >= DIRECT_BLOCKS && before.inodes[i].indirect == 0 && before.free == 1 then OneTaken(before, fs, p)
             else p == before.inodes[i].indirect && fs == before
    ensures RoundStuck(before, fs.(inodes := fs.inodes[i := fs.inodes[i].(indirect := p)]), i, s, p)
  {}

  /** How the write loop ends. */
  ghost predicate Stopped(fs0: Fs, fs: Fs, i: nat, pos: nat, data: seq<Byte>, written: nat)
    requires Shaped(fs0) && i < |fs0.inodes| && pos + |data| <= MAX_FILE
  {
    && written <= |data|
    && (written == |data| <==> Needed(fs0.disk, fs0.inodes[i], pos, |data|) <= fs0.free)
    && fs.free == (if written == |data| then fs0.free - Needed(fs0.disk, fs0.inodes[i], pos, |data|) else 0)
    && (if LosesIndirect(fs0.disk, fs0.inodes[i], pos, |data|, fs0.free)
        then exists fs1, b :: Wrote(fs0, fs1, i, pos, data[..written]) && NoLeak(fs1) && LostTo(fs1, fs, i, b)
        else Wrote(fs0, fs, i, pos, data[..written]) && NoLeak(fs))
  }

  lemma MidwayDone(fs0: Fs, fs: Fs, i: nat, pos: nat, data: seq<Byte>)
    requires pos + |data| <= MAX_FILE && Midway(fs0, fs, i, pos, data, |data|)
    ensures Stopped(fs0, fs, i, pos, data, |data|)
  {
    EnoughIsKept(fs0.disk, fs0.inodes[i], pos, |data|, fs0.free);
  }

  lemma MidwayStuck(fs0: Fs, fs: Fs, fs': Fs, i: nat, pos: nat, data: seq<Byte>, written: nat, b: nat)
    requires pos + |data| <= MAX_FILE && written < |data| && Shaped(fs0) && i < |fs0.inodes|
    ensures Midway(fs0, fs, i, pos, data, written) && RoundStuck(fs, fs', i, (pos + written) / BLOCK_SIZE, b)
            ==> Stopped(fs0, fs', i, pos, data, written)
  {
    if Midway(fs0, fs, i, pos, data, written) && RoundStuck(fs, fs', i, (pos + written) / BLOCK_SIZE, b) {
      RunsOut(fs0.disk, fs0.inodes[i], fs0.free, fs.disk, fs.inodes[i], fs.free, pos, written, |data|);
    }
  }

  /** A write with room for all of it never loses the indirect block. */
  lemma EnoughIsKept(disk: seq<Block>, n: Inode, pos: nat, len: nat, free: nat)
    requires pos + len <= MAX_FILE && |n.blocks| == DIRECT_BLOCKS
    requires Needed(disk, n, pos, len) <= free
    ensures !LosesIndirect(disk, n, pos, len, free)
  {
    if len > 0 && EndBlock(pos, len) > DIRECT_BLOCKS && n.indirect == 0 {
      var lo, hi := pos / BLOCK_SIZE, EndBlock(pos, len);
      var mid := if lo < DIRECT_BLOCKS then DIRECT_BLOCKS else lo;
      MissingSplits(disk, n, lo, mid, hi);
      assert Ptr(disk, n, mid) == 0;
      assert Missing(disk, n, lo, mid) == if lo < DIRECT_BLOCKS then Missing(disk, n, lo, DIRECT_BLOCKS) else 0;
    }
  }

  /** The file reads as before with `done` on top, and no other file changed. */
  ghost predicate Overwritten(fs0: Fs, fs': Fs, i: nat, pos: nat, done: seq<Byte>)
    requires Valid(fs0) && i < |fs0.inodes|
  {
    && Valid(fs')
    && var name, before := fs0.inodes[i].name, Files(fs0.disk, fs0.inodes);
       name in before && Files(fs'.disk, fs'.inodes) == before[name := Overwrite(before[name], pos, done)]
  }

  /** What a lost indirect block leaves: the last block that was free is now the
      indirect block, holding what it held, and none is free. All is well exactly
      when it held zeros: any other word in it is no block, or another slot's. */
  ghost predicate LastBlockLost(fs0: Fs, fs': Fs, i: nat, pos: nat, done: seq<Byte>)
    requires Valid(fs0) && i < |fs0.inodes|
  {
    && Shaped(fs') && |fs'.inodes| == |fs0.inodes| && fs'.dataStart == fs0.dataStart && |fs'.disk| == |fs0.disk|
    && var b := fs'.inodes[i].indirect;
    && InData(fs0, b) && !Marked(fs0, b) && (forall q: nat :: InData(fs0, q) && !Marked(fs0, q) ==> q <= b)
    && Marked(fs', b) && fs'.free == 0 && fs'.disk[b] == fs0.disk[b]
    && (Owned(fs') <==> fs0.disk[b] == ZeroBlock())
    && (Valid(fs') <==> fs0.disk[b] == ZeroBlock())
    && (Valid(fs') ==> Overwritten(fs0, fs', i, pos, done))
  }

  /** What a write leaves. Everything is written exactly when the free blocks cover
      what it needs, and then that many are gone; otherwise a prefix is, and all are. */
  ghost predicate WriteOutcome(fs0: Fs, fs': Fs, i: nat, pos: nat, data: seq<Byte>, written: nat, now: nat) {
    && Valid(fs0) && i < |fs0.inodes| && pos + |data| <= MAX_FILE && written <= |data|
    && InodeOk(fs0.inodes[i]) && Rewritten(fs0.inodes, fs'.inodes, i, pos + written, now)
    && (written == |data| <==> Needed(fs0.disk, fs0.inodes[i], pos, |data|) <= fs0.free)
    && fs'.free == (if written == |data| then fs0.free - Needed(fs0.disk, fs0.inodes[i], pos, |data|) else 0)
    && (if LosesIndirect(fs0.disk, fs0.inodes[i], pos, |data|, fs0.free)
        then LastBlockLost(fs0, fs', i, pos, data[..written])
        else Overwritten(fs0, fs', i, pos, data[..written]))
  }

  /** A write with room for all of it overwrites its range of one file and changes
      no other; `OverwriteReads` says what that reads as. */
  lemma WriteWithRoom(fs0: Fs, fs': Fs, i: nat, pos: nat, data: seq<Byte>, written: nat, now: nat)
    requires WriteOutcome(fs0, fs', i, pos, data, written, now)
    requires Needed(fs0.disk, fs0.inodes[i], pos, |data|) <= fs0.free
    ensures written == |data| && Overwritten(fs0, fs', i, pos, data)
    ensures fs'.free + Needed(fs0.disk, fs0.inodes[i], pos, |data|) == fs0.free
  {
    EnoughIsKept(fs0.disk, fs0.inodes[i], pos, |data|, fs0.free);
    assert data[..written] == data;
  }

  lemma StoppedOutcome(fs0: Fs, fs: Fs, i: nat, pos: nat, data: seq<Byte>, written: nat, now: nat)
    requires Valid(fs0) && i < |fs0.inodes| && fs0.inodes[i].used && pos + |data| <= MAX_FILE && |fs.inodes| == |fs0.inodes|
    requires Stopped(fs0, fs, i, pos, data, written)
    ensures WriteOutcome(fs0, Resize(fs, i, pos + written, now), i, pos, data, written, now)
  {
    assert InodeOk(fs0.inodes[i]);
    WriteRewrites(fs0, fs, i, pos, data, written, now);
    var done := data[..written];
    if LosesIndirect(fs0.disk, fs0.inodes[i], pos, |data|, fs0.free) {
      var fs1, b :| Wrote(fs0, fs1, i, pos, done) && NoLeak(fs1) && LostTo(fs1, fs, i, b);
      LostOutcome(fs0, fs1, fs, i, pos, done, b, now);
    } else {
      WriteFiles(fs0, fs, i, pos, done, now);
    }
  }

  // ------------------------------------------------- a lost indirect block

  /** The lost block was the only free one, and the last of those free before. */
  lemma LostIsLast(fs0: Fs, fs1: Fs, b: nat)
    requires Shaped(fs0) && Shaped(fs1) && fs1.dataStart == fs0.dataStart && |fs1.disk| == |fs0.disk|
    requires Taken(fs0, fs1) && CountsFree(fs1) && fs1.free == 1 && InData(fs1, b) && !Marked(fs1, b)
    ensures forall q: nat :: InData(fs1, q) && q != b ==> Marked(fs1, q)
    ensures !Marked(fs0, b) && forall q: nat :: InData(fs0, q) && !Marked(fs0, q) ==> q <= b
  {
    OneClear(fs1, b);
    forall q: nat | InData(fs0, q) && !Marked(fs0, q) ensures q <= b {
      if q != b { assert Marked(fs1, q); }
    }
  }

  lemma OneClear(fs: Fs, b: nat)
    requires Shaped(fs) && CountsFree(fs) && fs.free == 1 && InData(fs, b) && !Marked(fs, b)
    ensures forall q: nat :: InData(fs, q) && q != b ==> Marked(fs, q)
  {
    var n, k := |fs.disk| - fs.dataStart, b - fs.dataStart;
    var bits := fs.bitmap[..n];
    CountFlip(bits, k);
    CountZero(bits[k := true]);
    forall q: nat | InData(fs, q) && q != b ensures Marked(fs, q) {
      assert bits[k := true][q - fs.dataStart];
    }
  }

  /** A block that is not all zeros has a word that is not. */
  lemma StaleWord(b: Block) returns (k: nat)
    requires b != ZeroBlock()
    ensures k < POINTERS_PER_BLOCK && WordAt(b, k) != 0
  {
    var m :| 0 <= m < BLOCK_SIZE && b[m] != 0;
    k := m / 4;
  }

  lemma WordsOfZero(k: nat)
    requires k < POINTERS_PER_BLOCK
    ensures WordAt(ZeroBlock(), k) == 0
  {}

  /** The pointers that losing block b leaves. */
  lemma LostPointers(fs1: Fs, fs: Fs, i: nat, b: nat, j: nat, t: nat)
    requires Shaped(fs1) && i < |fs1.inodes| && LostTo(fs1, fs, i, b) && Shaped(fs)
    requires j < |fs1.inodes| && t <= INDIRECT_SLOT
    ensures Ptr(fs.disk, fs.inodes[j], t) ==
              if j == i && t == INDIRECT_SLOT then b
              else if j == i && t >= DIRECT_BLOCKS then WordAt(fs1.disk[b], t - DIRECT_BLOCKS)
              else Ptr(fs1.disk, fs1.inodes[j], t)
    ensures j == i && t >= DIRECT_BLOCKS ==> Ptr(fs1.disk, fs1.inodes[j], t) == 0
  {
    EmptyTable(fs1.disk, fs1.inodes[i]);
  }

  /** A stale word breaks ownership: it is no data block, or the indirect block itself,
      or, no block being free, in another slot already. */
  lemma StaleWordBreaks(fs1: Fs, fs: Fs, i: nat, b: nat, k: nat)
    requires Shaped(fs1) && NoLeak(fs1) && i < |fs1.inodes| && LostTo(fs1, fs, i, b) && Shaped(fs)
    requires k < POINTERS_PER_BLOCK && WordAt(fs1.disk[b], k) != 0
    ensures !Owned(fs)
  {
    var w, s := WordAt(fs1.disk[b], k), DIRECT_BLOCKS + k;
    LostPointers(fs1, fs, i, b, i, s);
    LostPointers(fs1, fs, i, b, i, INDIRECT_SLOT);
    if InData(fs1, w) && w != b {
      OneClear(fs1, b);
      assert Marked(fs1, w);
      var j, t :| 0 <= j < |fs1.inodes| && 0 <= t <= INDIRECT_SLOT && Ptr(fs1.disk, fs1.inodes[j], t) == w;
      LostPointers(fs1, fs, i, b, j, t);
      assert Ptr(fs.disk, fs.inodes[j], t) == w && !(j == i && t == s);
    }
    assert !SlotOk(fs, i, s);
  }

  /** A block of zeros lists no pointers, so nothing but the lost block itself is new. */
  lemma ZerosKeepAll(fs1: Fs, fs: Fs, i: nat, b: nat)
    requires Sound(fs1) && NoLeak(fs1) && i < |fs1.inodes| && LostTo(fs1, fs, i, b) && fs1.disk[b] == ZeroBlock()
    ensures Sound(fs) && NoLeak(fs) && forall q: nat :: InData(fs, q) ==> Marked(fs, q)
    ensures forall j, t :: 0 <= j < |fs1.inodes| && 0 <= t < MAX_BLOCKS ==>
              Ptr(fs.disk, fs.inodes[j], t) == Ptr(fs1.disk, fs1.inodes[j], t)
  {
    OneClear(fs1, b);
    FlipCounts(fs1, b);
    ClearIsUnowned(fs1, b);
    forall q: nat | InData(fs, q) ensures Marked(fs, q) {
      if q != b { assert Marked(fs1, q); }
    }
    forall j, t | 0 <= j < |fs1.inodes| && 0 <= t <= INDIRECT_SLOT
      ensures Ptr(fs.disk, fs.inodes[j], t) == if j == i && t == INDIRECT_SLOT then b else Ptr(fs1.disk, fs1.inodes[j], t)
    {
      LostPointers(fs1, fs, i, b, j, t);
      if j == i && DIRECT_BLOCKS <= t < INDIRECT_SLOT { WordsOfZero(t - DIRECT_BLOCKS); }
    }
    forall j, t | 0 <= j < |fs.inodes| && 0 <= t <= INDIRECT_SLOT ensures SlotOk(fs, j, t) {
      assert SlotOk(fs1, j, t);
    }
    forall q | Marked(fs, q) ensures IsOwned(fs, q) {
      if q == b {
        assert Ptr(fs.disk, fs.inodes[i], INDIRECT_SLOT) == q;
      } else {
        assert Marked(fs1, q);
        var j, t :| 0 <= j < |fs1.inodes| && 0 <= t <= INDIRECT_SLOT && Ptr(fs1.disk, fs1.inodes[j], t) == q;
        LostPointers(fs1, fs, i, b, i, INDIRECT_SLOT);
        assert Ptr(fs.disk, fs.inodes[j], t) == q;
      }
    }
  }

  lemma ZerosKeepWritten(fs0: Fs, fs1: Fs, fs: Fs, i: nat, pos: nat, done: seq<Byte>, b: nat)
    requires Wrote(fs0, fs1, i, pos, done) && NoLeak(fs1) && LostTo(fs1, fs, i, b) && fs1.disk[b] == ZeroBlock()
    ensures Wrote(fs0, fs, i, pos, done) && NoLeak(fs)
  {
    ZerosKeepAll(fs1, fs, i, b);
    TakenOn(fs0, fs1, fs);
    forall j, k | 0 <= j < |fs.inodes| && 0 <= k < MAX_FILE
      ensures ByteAt(fs.disk, fs.inodes[j], k) == ByteAt(fs1.disk, fs1.inodes[j], k)
    {
      assert Ptr(fs.disk, fs.inodes[j], k / BLOCK_SIZE) == Ptr(fs1.disk, fs1.inodes[j], k / BLOCK_SIZE);
    }
  }

  lemma LostOutcome(fs0: Fs, fs1: Fs, fs: Fs, i: nat, pos: nat, done: seq<Byte>, b: nat, now: nat)
    requires Valid(fs0) && Wrote(fs0, fs1, i, pos, done) && NoLeak(fs1) && LostTo(fs1, fs, i, b)
    requires fs0.inodes[i].used && pos + |done| <= MAX_FILE
    ensures LastBlockLost(fs0, Resize(fs, i, pos + |done|, now), i, pos, done)
  {
    LostIsLast(fs0, fs1, b);
    FlipCounts(fs1, b);
    assert fs1.disk[b] == fs0.disk[b];
    if fs0.disk[b] == ZeroBlock() {
      ZerosKeepWritten(fs0, fs1, fs, i, pos, done, b);
      WriteFiles(fs0, fs, i, pos, done, now);
    } else {
      var k := StaleWord(fs0.disk[b]);
      StaleWordBreaks(fs1, fs, i, b, k);
      ResizeKeepsBroken(fs, i, pos + |done|, now);
    }
  }

  lemma ResizeKeepsBroken(fs: Fs, i: nat, end: nat, now: nat)
    requires Shaped(fs) && !Owned(fs) && i < |fs.inodes|
    ensures var fs' := Resize(fs, i, end, now); Shaped(fs') && !Owned(fs')
  {
    var fs' := Resize(fs, i, end, now);
    assert forall j, t :: 0 <= j < |fs.inodes| && 0 <= t <= INDIRECT_SLOT ==>
             Ptr(fs'.disk, fs'.inodes[j], t) == Ptr(fs.disk, fs.inodes[j], t);
    if Owned(fs') { FewerPointers(fs', fs); }
  }

  // ----------------------------------------------------- reading and deleting

  /** A chunk of a block is a stretch of the contents. */
  lemma ChunkOfContent(disk: seq<Block>, n: Inode, at: nat, len: nat)
    requires |n.blocks| == DIRECT_BLOCKS && n.size <= MAX_FILE && at + len <= n.size && 0 < len
    requires at % BLOCK_SIZE + len <= BLOCK_SIZE
    ensures BlockOf(disk, n, at / BLOCK_SIZE)[at % BLOCK_SIZE..at % BLOCK_SIZE + len] == Content(disk, n)[at..at + len]
  {
    var off := at % BLOCK_SIZE;
    var got, want := BlockOf(disk, n, at / BLOCK_SIZE)[off..off + len], Content(disk, n)[at..at + len];
    forall k | 0 <= k < len ensures got[k] == want[k] {
      Position(at, len, at + k);
    }
  }

  /** Slots below `s` of file i have been freed, and nothing else. */
  ghost predicate FreedBelow(fs0: Fs, fs: Fs, i: nat, s: nat)
    requires Shaped(fs0) && i < |fs0.inodes| && s <= INDIRECT_SLOT + 1
  {
    && fs == fs0.(bitmap := fs.bitmap, free := fs.free)
    && Shaped(fs) && CountsFree(fs)
    && forall q :: InData(fs0, q) ==> (Marked(fs, q) <==> Marked(fs0, q) && !exists t :: 0 <= t < s && Ptr(fs0.disk, fs0.inodes[i], t) == q)
  }

  /** Freeing the block of the next slot; a 0 pointer frees nothing. */
  lemma FreeNext(fs0: Fs, fs: Fs, i: nat, s: nat)
    requires Shaped(fs0) && Owned(fs0) && i < |fs0.inodes| && s <= INDIRECT_SLOT && FreedBelow(fs0, fs, i, s)
    ensures var q := Ptr(fs0.disk, fs0.inodes[i], s);
            if q == 0 then FreedBelow(fs0, fs, i, s + 1) else Marked(fs, q) && FreedBelow(fs0, Unmark(fs, q), i, s + 1)
  {
    assert SlotOk(fs0, i, s);
    var q := Ptr(fs0.disk, fs0.inodes[i], s);
    var fs' := if q == 0 then fs else Unmark(fs, q);
    if q != 0 { FlipCounts(fs, q); }
    forall r | InData(fs0, r)
      ensures Marked(fs', r) <==> Marked(fs0, r) && !exists t :: 0 <= t < s + 1 && Ptr(fs0.disk, fs0.inodes[i], t) == r
    {
      assert Marked(fs', r) <==> Marked(fs, r) && r != q;
    }
  }

  lemma DeleteLeaksNothing(fs0: Fs, fs: Fs, i: nat)
    requires Shaped(fs0) && NoLeak(fs0) && i < |fs0.inodes| && FreedBelow(fs0, fs, i, INDIRECT_SLOT + 1)
    ensures var fs' := fs.(inodes := fs.inodes[i := EMPTY_INODE]); Shaped(fs') && NoLeak(fs')
  {
    var fs' := fs.(inodes := fs.inodes[i := EMPTY_INODE]);
    forall q | Marked(fs', q) ensures IsOwned(fs', q) {
      assert Marked(fs, q) && InData(fs0, q) && Marked(fs0, q);
      var j, t :| 0 <= j < |fs0.inodes| && 0 <= t <= INDIRECT_SLOT && Ptr(fs0.disk, fs0.inodes[j], t) == q;
      assert j != i && Ptr(fs'.disk, fs'.inodes[j], t) == q;
    }
  }

  /** Once all its blocks are freed and its inode is cleared, a file is gone and no
      other file has changed. */
  lemma DeleteCompletes(fs0: Fs, fs: Fs, i: nat)
    requires Valid(fs0) && i < |fs0.inodes| && fs0.inodes[i].used && FreedBelow(fs0, fs, i, INDIRECT_SLOT + 1)
    ensures var fs' := fs.(inodes := fs.inodes[i := EMPTY_INODE]);
            Valid(fs') && Files(fs'.disk, fs'.inodes) == Files(fs0.disk, fs0.inodes) - {fs0.inodes[i].name}
  {
    var fs' := fs.(inodes := fs.inodes[i := EMPTY_INODE]);
    NoPointers(fs.disk, EMPTY_INODE);
    forall j, t | 0 <= j < |fs.inodes| && 0 <= t <= INDIRECT_SLOT && Ptr(fs'.disk, fs'.inodes[j], t) != 0
      ensures Marked(fs', Ptr(fs'.disk, fs'.inodes[j], t))
    {
      assert j != i && SlotOk(fs0, j, t);
    }
    FewerPointers(fs0, fs');
    DeleteLeaksNothing(fs0, fs, i);
    forall j | 0 <= j < |fs'.inodes| ensures InodeOk(fs'.inodes[j]) && ZeroTail(fs'.disk, fs'.inodes[j]) {
      assert InodeOk(fs0.inodes[j]) && ZeroTail(fs0.disk, fs0.inodes[j]);
    }
    FilesDrop(fs0.disk, fs0.inodes, fs'.disk, fs'.inodes, i);
  }
}
