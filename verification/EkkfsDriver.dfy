/**
 The file operations, updating the inode table, the bitmap, the free counter and
 the card (through the block cache) in place. `State()` is their common value;
 each operation is specified by what it does to the map from names to contents.
 */
module EkkfsDriver {
  import opened BlockCache
  import opened Ekkfs

  datatype Status = Ok | ErrIo | ErrNotFound | ErrExists | ErrFull | ErrNoInodes | ErrNameTooLong | ErrPermission

  /** An open file. */
  class File {
    const inodeNum: nat
    var position: nat

    constructor (i: nat)
      ensures inodeNum == i && position == 0
    {
      inodeNum, position := i, 0;
    }
  }

  class Driver {
    const dataStart: nat
    const dev: Device
    const bitmap: array<bool>
    const inodes: array<Inode>
    var free: nat

    function State(): Fs
      reads this, dev, bitmap, inodes
    {
      Fs(dataStart, bitmap[..], free, inodes[..], dev.disk)
    }

    /** The state as a running write sees it: inode i only exists as a local copy. */
    function With(i: nat, n: Inode): Fs
      requires i < inodes.Length
      reads this, dev, bitmap, inodes
    {
      State().(inodes := inodes[..][i := n])
    }

    ghost predicate Ready()
      reads this, dev, dev.entries, bitmap, inodes
    {
      dev.Valid() && Shaped(State()) && bitmap.Length % 8 == 0
    }

    /** A freshly formatted and mounted card: no file, every data block free. */
    constructor (card: seq<Block>, firstData: nat, inodeCount: nat)
      requires 0 < firstData <= |card| <= NO_BLOCK
      ensures fresh(dev) && fresh(dev.entries) && fresh(bitmap) && fresh(inodes)
      ensures Ready() && Valid(State()) && Files(dev.disk, inodes[..]) == map[]
      ensures dev.disk == card && free == |card| - firstData && inodes[..] == seq(inodeCount, _ => EMPTY_INODE)
    {
      dataStart := firstData;
      dev := new Device(card);
      bitmap := new bool[(|card| - firstData + 7) / 8 * 8](_ => false);
      inodes := new Inode[inodeCount](_ => EMPTY_INODE);
      free := |card| - firstData;
      new;
      FreshIsValid(State());
    }

    /** First clear bit below `total`, byte by byte and then bit by bit, or -1. */
    method FirstClear(total: nat) returns (k: int)
      requires bitmap.Length % 8 == 0 && total <= bitmap.Length
      ensures -1 <= k < total
      ensures k >= 0 ==> !bitmap[k]
      ensures forall q :: 0 <= q < (if k < 0 then total else k) ==> bitmap[q]
    {
      for i := 0 to (total + 7) / 8
        invariant forall q :: 0 <= q < 8 * i && q < total ==> bitmap[q]
      {
        if !FullByte(bitmap[8 * i..8 * i + 8]) {
          for bit := 0 to 8
            invariant forall q :: 0 <= q < 8 * i + bit && q < total ==> bitmap[q]
          {
            if !bitmap[8 * i + bit] && 8 * i + bit < total { return 8 * i + bit; }
          }
        } else {
          var byte := bitmap[8 * i..8 * i + 8];
          assert forall b :: 0 <= b < 8 ==> byte[b] && byte[b] == bitmap[8 * i + b];
          assert forall q :: 8 * i <= q < 8 * i + 8 ==> byte[q - 8 * i] == bitmap[q];
        }
      }
      return -1;
    }

    /** Takes the first free data block and counts it; -1 exactly when none is free. */
    method BitmapAlloc() returns (block: int)
      requires Ready() && CountsFree(State())
      modifies this`free, bitmap
      ensures Ready() && CountsFree(State())
      ensures block < 0 <==> old(free) == 0
      ensures block < 0 ==> State() == old(State())
      ensures block >= 0 ==>
                && InData(old(State()), block) && !old(Marked(State(), block))
                && old(free) > 0 && State() == old(Mark(State(), block))
                && forall q :: dataStart <= q < block ==> old(Marked(State(), q))
    {
      var total := |dev.disk| - dataStart;
      var k := FirstClear(total);
      CountZero(bitmap[..total]);
      if k < 0 { return -1; }
      block := dataStart + k;
      FlipCounts(State(), block);
      bitmap[k] := true;
      free := free - 1;
      assert bitmap[..] == old(bitmap[..])[k := true];
    }

    method BitmapFree(block: nat)
      requires Ready() && CountsFree(State()) && Marked(State(), block)
      modifies this`free, bitmap
      ensures Ready() && CountsFree(State()) && State() == old(Unmark(State(), block))
    {
      FlipCounts(State(), block);
      bitmap[block - dataStart] := false;
      free := free + 1;
      assert bitmap[..] == old(bitmap[..])[block - dataStart := false];
    }

    /** The inode in use under a name, compared on its first 15 characters, or -1. */
    method FindByName(name: string) returns (i: int)
      requires forall k :: 0 <= k < inodes.Length ==> |inodes[k].name| <= MAX_FILENAME
      ensures -1 <= i < inodes.Length
      ensures i >= 0 ==> inodes[i].used && inodes[i].name == Truncated(name)
      ensures i < 0 ==> forall k :: 0 <= k < inodes.Length && inodes[k].used ==> inodes[k].name != Truncated(name)
    {
      for k := 0 to inodes.Length
        invariant forall m :: 0 <= m < k && inodes[m].used ==> inodes[m].name != Truncated(name)
      {
        if inodes[k].used && inodes[k].name == Truncated(name) { return k; }
      }
      return -1;
    }

    method AllocInode() returns (i: int)
      ensures -1 <= i < inodes.Length
      ensures i >= 0 ==> !inodes[i].used && forall k :: 0 <= k < i ==> inodes[k].used
      ensures i < 0 <==> forall k :: 0 <= k < inodes.Length ==> inodes[k].used
    {
      for k := 0 to inodes.Length
        invariant forall m :: 0 <= m < k ==> inodes[m].used
      {
        if !inodes[k].used { return k; }
      }
      return -1;
    }

    /** Creating adds one empty file, unless the name is too long or taken or every
        inode is in use. */
    method Create(name: string, owner: nat, system: bool, now: nat) returns (status: Status, i: nat)
      requires Ready() && Valid(State())
      modifies inodes
      ensures Ready() && Valid(State())
      ensures status == ErrNameTooLong <==> |name| > MAX_FILENAME
      ensures status == ErrExists <==> |name| <= MAX_FILENAME && name in old(Files(dev.disk, inodes[..]))
      ensures status == ErrNoInodes <==>
                && |name| <= MAX_FILENAME && name !in old(Files(dev.disk, inodes[..]))
                && forall k :: 0 <= k < inodes.Length ==> old(inodes[k].used)
      ensures status in {Ok, ErrNameTooLong, ErrExists, ErrNoInodes}
      ensures status != Ok ==> State() == old(State())
      ensures status == Ok ==>
                && i < inodes.Length && inodes[..] == old(inodes[..])[i := NewFile(name, owner, system, now)]
                && !old(inodes[i].used) && (forall k :: 0 <= k < i ==> old(inodes[k].used))
                && inodes[i].used && inodes[i].name == name && inodes[i].owner == owner && inodes[i].system == system
                && Stats(inodes[..]) == old(Stats(inodes[..]))[name := Stat(owner, system, 0, now)]
                && Files(dev.disk, inodes[..]) == old(Files(dev.disk, inodes[..]))[name := []]
    {
      i := 0;
      if |name| > MAX_FILENAME { return ErrNameTooLong, i; }
      assert forall k :: 0 <= k < inodes.Length ==> InodeOk(inodes[..][k]);
      var found := FindByName(name);
      if found >= 0 {
        FilesHas(dev.disk, inodes[..], found);
        return ErrExists, i;
      }
      var slot := AllocInode();
      if slot < 0 { return ErrNoInodes, i; }
      var n := NewFile(name, owner, system, now);
      CreateFiles(State(), slot, n);
      StatsSet(inodes[..], inodes[..][slot := n], slot);
      inodes[slot] := n;
      assert inodes[..] == old(inodes[..])[slot := n];
      return Ok, slot;
    }

    /** Takes a free block while a write is running. */
    method TakeBlock(i: nat, n: Inode) returns (block: int)
      requires Ready() && i < inodes.Length && Sound(With(i, n))
      modifies this`free, bitmap
      ensures Ready() && Sound(With(i, n))
      ensures block < 0 <==> old(free) == 0
      ensures block < 0 ==> With(i, n) == old(With(i, n))
      ensures block >= 0 ==>
                && old(free) > 0 && InData(old(With(i, n)), block) && !old(Marked(With(i, n), block))
                && With(i, n) == old(Mark(With(i, n), block))
                && Unowned(With(i, n), block) && Taken(old(With(i, n)), With(i, n))
    {
      ghost var before, was := With(i, n), State();
      block := BitmapAlloc();
      if block >= 0 {
        assert forall q :: Marked(was, q) == Marked(before, q);
        MarkKeepsOwnership(before, block);
        assert With(i, n) == Mark(before, block);
        FirstTaken(before, block);
      }
    }

    /** The pointer in slot `s` of the local inode copy `n`, after allocating the
        indirect block it needs. */
    method FindPointer(i: nat, n: Inode, s: nat) returns (ok: bool, d: nat, p: nat, table: seq<Word>)
      requires Ready() && i < inodes.Length && s < MAX_BLOCKS && |n.blocks| == DIRECT_BLOCKS
      requires Sound(With(i, n))
      modifies this`free, bitmap, dev, dev.entries
      ensures Ready() && dev.disk == old(dev.disk) && Sound(With(i, n))
      ensures ok <==> (s >= DIRECT_BLOCKS && n.indirect == 0 ==> old(free) > 0)
      ensures ok ==> IndirectReady(old(With(i, n)), With(i, n), n, s, p)
      ensures !ok ==> p == n.indirect && With(i, n) == old(With(i, n))
      ensures ok ==> d == Ptr(dev.disk, n, s)
      ensures ok && s >= DIRECT_BLOCKS ==> table == Table(dev.disk, n)
    {
      ok, d, p, table := true, 0, n.indirect, [];
      if s < DIRECT_BLOCKS {
        d := n.blocks[s];
      } else if p == 0 {
        EmptyTable(dev.disk, n);
        var fresh_ := TakeBlock(i, n);
        if fresh_ < 0 { return false, d, p, table; }
        p := fresh_;
        table := seq(POINTERS_PER_BLOCK, _ => 0);
      } else {
        assert SlotOk(With(i, n), i, INDIRECT_SLOT);
        var block := dev.ReadBlock(p);
        table := DecodeWords(block);
        d := table[s - DIRECT_BLOCKS];
      }
    }

    /** Finds or allocates the block behind slot `s` of the local inode copy `n`,
        and the indirect block before it. Nothing on the card changes yet. When
        too few blocks are left, at most the indirect block has been taken. */
    method Prepare(i: nat, n: Inode, s: nat) returns (ok: bool, d: nat, p: nat, table: seq<Word>)
      requires Ready() && i < inodes.Length && s < MAX_BLOCKS && |n.blocks| == DIRECT_BLOCKS
      requires Sound(With(i, n))
      modifies this`free, bitmap, dev, dev.entries
      ensures Ready() && dev.disk == old(dev.disk) && Sound(With(i, n))
      ensures ok <==> old(SlotNeeds(dev.disk, n, s)) <= old(free)
      ensures ok ==> SlotReady(old(With(i, n)), With(i, n), i, s, d, p)
      ensures ok && s >= DIRECT_BLOCKS ==> table == Table(dev.disk, n)
      ensures ok && s < DIRECT_BLOCKS ==> p == n.indirect
      ensures !ok ==> if s >= DIRECT_BLOCKS && n.indirect == 0 && old(free) == 1
                      then OneTaken(old(With(i, n)), With(i, n), p)
                      else p == n.indirect && With(i, n) == old(With(i, n))
    {
      ghost var before := With(i, n);
      ok, d, p, table := FindPointer(i, n, s);
      if !ok { return; }
      ghost var found := With(i, n);
      if d == 0 {
        var fresh_ := TakeBlock(i, n);
        if fresh_ < 0 { return false, d, p, table; }
        d := fresh_;
      }
      SlotPrepared(before, found, With(i, n), i, s, d, p);
    }

    /** Writes one chunk into the block behind slot `s`, then the pointer table. */
    method StoreChunk(n: Inode, s: nat, off: nat, chunk: seq<Byte>, d: nat, p: nat, table: seq<Word>) returns (n': Inode)
      requires Ready() && s < MAX_BLOCKS && |n.blocks| == DIRECT_BLOCKS && off + |chunk| <= BLOCK_SIZE
      requires 0 < d < |dev.disk| && (Ptr(dev.disk, n, s) == d || Ptr(dev.disk, n, s) == 0)
      requires s >= DIRECT_BLOCKS ==> 0 < p < |dev.disk| && table == Table(dev.disk, n)
      modifies dev, dev.entries
      ensures Ready()
      ensures n' == SetPointer(n, s, d, p)
      ensures dev.disk == old(StoreBlock(dev.disk, n, s, d, p, Splice(BlockOf(dev.disk, n, s), off, chunk)))
    {
      var buffer := ZeroBlock();
      if Ptr(dev.disk, n, s) != 0 { buffer := dev.ReadBlock(d); }
      buffer := Splice(buffer, off, chunk);
      dev.WriteBlock(d, buffer);
      if s >= DIRECT_BLOCKS {
        dev.WriteBlock(p, EncodeWords(table[s - DIRECT_BLOCKS := d]));
        n' := n.(indirect := p);
      } else {
        n' := n.(blocks := n.blocks[s := d]);
      }
    }

    /** Finds the blocks for a chunk and stores it: `ready` is the state once its slot's
        blocks are there. */
    method PlaceChunk(i: nat, n: Inode, pos: nat, chunk: seq<Byte>) returns (ok: bool, n': Inode, ghost d: nat, ghost p: nat, ghost ready: Fs)
      requires Ready() && i < inodes.Length && |n.blocks| == DIRECT_BLOCKS && Sound(With(i, n))
      requires pos < MAX_FILE && pos % BLOCK_SIZE + |chunk| <= BLOCK_SIZE
      modifies this`free, bitmap, dev, dev.entries
      ensures Ready() && |n'.blocks| == DIRECT_BLOCKS
      ensures ok ==> SlotReady(old(With(i, n)), ready, i, pos / BLOCK_SIZE, d, p) && With(i, n') == StoreAt(ready, i, pos, chunk, d, p)
      ensures !ok ==> RoundStuck(old(With(i, n)), With(i, n'), i, pos / BLOCK_SIZE, n'.indirect)
    {
      ghost var before := With(i, n);
      var d', p', table;
      ok, d', p', table := Prepare(i, n, pos / BLOCK_SIZE);
      d, p, ready := d', p', With(i, n);
      if !ok {
        n' := n.(indirect := p');
        RoundIsStuck(before, With(i, n), i, pos / BLOCK_SIZE, p');
        assert With(i, n') == With(i, n).(inodes := With(i, n).inodes[i := n']);
        return;
      }
      n' := StoreRound(i, n, pos, chunk, d', p', table);
    }

    method StoreRound(i: nat, n: Inode, pos: nat, chunk: seq<Byte>, d: nat, p: nat, table: seq<Word>) returns (n': Inode)
      requires Ready() && i < inodes.Length && |n.blocks| == DIRECT_BLOCKS && pos < MAX_FILE && pos % BLOCK_SIZE + |chunk| <= BLOCK_SIZE
      requires 0 < d < |dev.disk| && (Ptr(dev.disk, n, pos / BLOCK_SIZE) == d || Ptr(dev.disk, n, pos / BLOCK_SIZE) == 0)
      requires pos / BLOCK_SIZE >= DIRECT_BLOCKS ==> 0 < p < |dev.disk| && table == Table(dev.disk, n)
      requires pos / BLOCK_SIZE < DIRECT_BLOCKS ==> p == n.indirect
      modifies dev, dev.entries
      ensures Ready() && |n'.blocks| == DIRECT_BLOCKS && With(i, n') == old(StoreAt(With(i, n), i, pos, chunk, d, p))
    {
      n' := StoreChunk(n, pos / BLOCK_SIZE, pos % BLOCK_SIZE, chunk, d, p, table);
    }

    /** One round of the write loop. */
    method WriteRound(ghost fs0: Fs, i: nat, n: Inode, ghost start: nat, ghost done: seq<Byte>, pos: nat, chunk: seq<Byte>)
      returns (ok: bool, n': Inode)
      requires Ready() && i < inodes.Length && |n.blocks| == DIRECT_BLOCKS
      requires Wrote(fs0, With(i, n), i, start, done) && NoLeak(With(i, n)) && pos == start + |done|
      requires pos < MAX_FILE && 0 < |chunk| && pos % BLOCK_SIZE + |chunk| <= BLOCK_SIZE
      modifies this`free, bitmap, dev, dev.entries
      ensures Ready() && |n'.blocks| == DIRECT_BLOCKS
      ensures ok ==> RoundOk(fs0, old(With(i, n)), With(i, n'), i, start, done, chunk)
      ensures !ok ==> RoundStuck(old(With(i, n)), With(i, n'), i, pos / BLOCK_SIZE, n'.indirect)
    {
      ghost var before := With(i, n);
      ghost var d, p, ready;
      ok, n', d, p, ready := PlaceChunk(i, n, pos, chunk);
      if ok { RoundCompletes(fs0, before, ready, i, start, done, chunk, d, p); }
    }

    /** One turn of the write loop: a chunk more, or out of room for good. */
    method Turn(ghost fs0: Fs, i: nat, n: Inode, pos: nat, data: seq<Byte>, written: nat) returns (ok: bool, n': Inode, toWrite: nat)
      requires Ready() && i < inodes.Length && |n.blocks| == DIRECT_BLOCKS && pos + |data| <= MAX_FILE && written < |data|
      requires Midway(fs0, With(i, n), i, pos, data, written)
      modifies this`free, bitmap, dev, dev.entries
      ensures Ready() && |n'.blocks| == DIRECT_BLOCKS
      ensures ok ==> 0 < toWrite <= |data| - written && Midway(fs0, With(i, n'), i, pos, data, written + toWrite)
      ensures !ok ==> toWrite == 0 && Stopped(fs0, With(i, n'), i, pos, data, written)
    {
      ghost var before := With(i, n);
      toWrite := ChunkLen(pos + written, |data| - written);
      ok, n' := WriteRound(fs0, i, n, pos, data[..written], pos + written, data[written..written + toWrite]);
      ghost var after := With(i, n');
      if ok {
        MidwayOn(fs0, before, after, i, pos, data, written, toWrite);
      } else {
        MidwayStuck(fs0, before, after, i, pos, data, written, n'.indirect);
        toWrite := 0;
      }
    }

    /** The write loop, on the local inode copy. */
    method WriteLoop(ghost fs0: Fs, i: nat, n0: Inode, pos: nat, data: seq<Byte>) returns (n: Inode, written: nat)
      requires Ready() && Valid(fs0) && i < inodes.Length && |n0.blocks| == DIRECT_BLOCKS && With(i, n0) == fs0
      requires pos + |data| <= MAX_FILE
      modifies this`free, bitmap, dev, dev.entries
      ensures Ready() && |n.blocks| == DIRECT_BLOCKS
      ensures i < |fs0.inodes| && Stopped(fs0, With(i, n), i, pos, data, written)
    {
      n, written := n0, 0;
      MidwayStart(fs0, i, pos, data);
      ghost var fs := fs0;
      while written < |data|
        invariant Ready() && |n.blocks| == DIRECT_BLOCKS && written <= |data|
        invariant fs == With(i, n) && Midway(fs0, fs, i, pos, data, written)
        decreases |data| - written
      {
        var ok, toWrite;
        ok, n, toWrite := Turn(fs0, i, n, pos, data, written);
        fs := With(i, n);
        if !ok { return; }
        written := written + toWrite;
      }
      MidwayDone(fs0, fs, i, pos, data);
    }

    /** Stores the local inode copy with its new size. */
    method StoreInode(i: nat, n: Inode, end: nat, now: nat)
      requires Ready() && i < inodes.Length && |n.blocks| == DIRECT_BLOCKS
      modifies inodes
      ensures Ready() && State() == old(Resize(With(i, n), i, end, now))
    {
      inodes[i] := n.(size := if end > n.size then end else n.size, modified := now);
      assert inodes[..] == old(inodes[..])[i := inodes[i]];
    }

    /** The permitted write: the loop on a copy of the inode, then the inode. */
    method WriteAt(i: nat, pos: nat, data: seq<Byte>, now: nat) returns (written: nat)
      requires Ready() && Valid(State()) && i < inodes.Length && inodes[i].used && pos + |data| <= MAX_FILE
      modifies this`free, bitmap, inodes, dev, dev.entries
      ensures Ready() && WriteOutcome(old(State()), State(), i, pos, data, written, now)
    {
      ghost var fs0 := State();
      var n := inodes[i];
      assert InodeOk(fs0.inodes[i]) && With(i, n) == fs0;
      n, written := WriteLoop(fs0, i, n, pos, data);
      ghost var fs := With(i, n);
      StoreInode(i, n, pos + written, now);
      StoppedOutcome(fs0, fs, i, pos, data, written, now);
    }

    /** The tests before a write: a known inode, in use, of the caller or the system's. */
    method CheckWrite(i: nat, owner: nat) returns (status: Status)
      ensures status == ErrIo <==> i >= inodes.Length
      ensures status == ErrNotFound <==> i < inodes.Length && !inodes[i].used
      ensures status == ErrPermission <==> i < inodes.Length && inodes[i].used && owner != 0 && inodes[i].owner != owner
      ensures status in {Ok, ErrIo, ErrNotFound, ErrPermission}
    {
      if i >= inodes.Length { return ErrIo; }
      if !inodes[i].used { return ErrNotFound; }
      if owner != 0 && inodes[i].owner != owner { return ErrPermission; }
      return Ok;
    }

    /** Writes what there is room for, from the file's position on; `WriteOutcome`
        says what that leaves. The refused cases change nothing. */
    method Write(file: File, data: seq<Byte>, owner: nat, now: nat) returns (status: Status, written: nat)
      requires Ready() && Valid(State()) && file.position + |data| <= MAX_FILE
      modifies file, this`free, bitmap, inodes, dev, dev.entries
      ensures Ready() && file.position == old(file.position) + written
      ensures status in {Ok, ErrFull} <==>
                && file.inodeNum < inodes.Length && old(inodes[file.inodeNum].used)
                && (owner == 0 || old(inodes[file.inodeNum].owner) == owner)
      ensures status !in {Ok, ErrFull} ==> written == 0 && State() == old(State())
      ensures status in {Ok, ErrFull} ==> WriteOutcome(old(State()), State(), file.inodeNum, old(file.position), data, written, now)
      ensures status == ErrPermission <==>
                && file.inodeNum < inodes.Length && old(inodes[file.inodeNum].used)
                && owner != 0 && old(inodes[file.inodeNum].owner) != owner
      ensures status == ErrFull ==> written == 0 < |data|
      ensures status == Ok ==> written > 0 || data == []
    {
      var i := file.inodeNum;
      written := 0;
      status := CheckWrite(i, owner);
      if status != Ok { return; }
      written := WriteAt(i, file.position, data, now);
      file.position := file.position + written;
      if written == 0 && |data| > 0 { status := ErrFull; }
    }

    /** Block `s` of a file, zeros where it has none. */
    method ReadSlot(i: nat, s: nat) returns (b: Block)
      requires Ready() && Owned(State()) && i < inodes.Length && s < MAX_BLOCKS
      modifies dev, dev.entries
      ensures Ready() && dev.disk == old(dev.disk)
      ensures |inodes[i].blocks| == DIRECT_BLOCKS && b == BlockOf(dev.disk, inodes[i], s)
    {
      assert SlotOk(State(), i, s) && SlotOk(State(), i, INDIRECT_SLOT);
      var n := inodes[i];
      var p := 0;
      if s < DIRECT_BLOCKS {
        p := n.blocks[s];
      } else if n.indirect != 0 {
        var table := dev.ReadBlock(n.indirect);
        p := DecodeWords(table)[s - DIRECT_BLOCKS];
      } else {
        EmptyTable(dev.disk, n);
      }
      if p == 0 { return ZeroBlock(); }
      b := dev.ReadBlock(p);
    }

    /** Returns the contents from the file's position on, as far as asked for and
        as far as they go. */
    method Read(file: File, size: nat) returns (status: Status, out: seq<Byte>)
      requires Ready() && Valid(State())
      modifies file, dev, dev.entries
      ensures Ready() && State() == old(State()) && file.position == old(file.position) + |out|
      ensures status == ErrIo <==> file.inodeNum >= inodes.Length
      ensures status == ErrNotFound <==> file.inodeNum < inodes.Length && !inodes[file.inodeNum].used
      ensures status in {Ok, ErrIo, ErrNotFound}
      ensures status != Ok ==> out == []
      ensures status == Ok ==>
                && ZeroTail(dev.disk, inodes[file.inodeNum])
                && var c, pos := Content(dev.disk, inodes[file.inodeNum]), old(file.position);
                   out == if |c| <= pos then [] else if size <= |c| - pos then c[pos..pos + size] else c[pos..]
    {
      out := [];
      var i := file.inodeNum;
      if i >= inodes.Length { return ErrIo, out; }
      if !inodes[i].used { return ErrNotFound, out; }
      ghost var fs := State();
      assert InodeOk(fs.inodes[i]) && ZeroTail(fs.disk, fs.inodes[i]);
      var remaining := if file.position < inodes[i].size then inodes[i].size - file.position else 0;
      var left := if size > remaining then remaining else size;
      var pos := file.position;
      out := ReadLoop(i, pos, left);
      file.position := pos + left;
      status := Ok;
    }

    method ReadLoop(i: nat, pos: nat, left: nat) returns (out: seq<Byte>)
      requires Ready() && Owned(State()) && i < inodes.Length && ZeroTail(dev.disk, inodes[i])
      requires left > 0 ==> pos + left <= inodes[i].size
      modifies dev, dev.entries
      ensures Ready() && dev.disk == old(dev.disk) && |out| == left
      ensures left > 0 ==> out == Content(dev.disk, inodes[i])[pos..pos + left]
    {
      out := [];
      while |out| < left
        invariant Ready() && dev.disk == old(dev.disk) && |out| <= left
        invariant left > 0 ==> out == Content(dev.disk, inodes[i])[pos..pos + |out|]
      {
        var chunk := ReadChunk(i, pos + |out|, left - |out|);
        ghost var c := Content(dev.disk, inodes[i]);
        assert c[pos..pos + |out|] + c[pos + |out|..pos + |out| + |chunk|] == c[pos..pos + |out| + |chunk|];
        out := out + chunk;
      }
    }

    /** As much as lies in one block. */
    method ReadChunk(i: nat, at: nat, left: nat) returns (chunk: seq<Byte>)
      requires Ready() && Owned(State()) && i < inodes.Length && ZeroTail(dev.disk, inodes[i])
      requires 0 < left && at + left <= inodes[i].size
      modifies dev, dev.entries
      ensures Ready() && dev.disk == old(dev.disk) && 0 < |chunk| <= left
      ensures chunk == Content(dev.disk, inodes[i])[at..at + |chunk|]
    {
      var len := ChunkLen(at, left);
      var block := ReadSlot(i, at / BLOCK_SIZE);
      ChunkOfContent(dev.disk, inodes[i], at, len);
      return block[at % BLOCK_SIZE..at % BLOCK_SIZE + len];
    }

    /** Frees the block of the next slot, if it has one. */
    method FreeSlot(ghost fs0: Fs, i: nat, s: nat, p: nat)
      requires Ready() && Shaped(fs0) && Owned(fs0) && i < |fs0.inodes| && s <= INDIRECT_SLOT && FreedBelow(fs0, State(), i, s)
      requires p == Ptr(fs0.disk, fs0.inodes[i], s)
      modifies this`free, bitmap
      ensures Ready() && FreedBelow(fs0, State(), i, s + 1)
    {
      FreeNext(fs0, State(), i, s);
      if p != 0 { BitmapFree(p); }
    }

    /** Deleting removes one file and frees its blocks, unless it is missing or the
        caller may not: only its owner or the system may, and only the system may
        delete a system file. */
    method Delete(name: string, owner: nat) returns (status: Status)
      requires Ready() && Valid(State())
      modifies this`free, bitmap, inodes, dev, dev.entries
      ensures Ready() && Valid(State()) && dev.disk == old(dev.disk)
      ensures status == ErrNotFound <==> Truncated(name) !in old(Files(dev.disk, inodes[..]))
      ensures status in {Ok, ErrNotFound, ErrPermission}
      ensures status == ErrPermission <==>
                && Truncated(name) in old(Stats(inodes[..])) && owner != 0
                && (old(Stats(inodes[..]))[Truncated(name)].owner != owner || old(Stats(inodes[..]))[Truncated(name)].system)
      ensures status != Ok ==> State() == old(State())
      ensures status == Ok ==> Files(dev.disk, inodes[..]) == old(Files(dev.disk, inodes[..])) - {Truncated(name)}
      ensures status == Ok ==> Stats(inodes[..]) == old(Stats(inodes[..])) - {Truncated(name)}
    {
      ghost var fs0 := State();
      assert forall k :: 0 <= k < inodes.Length ==> InodeOk(fs0.inodes[k]);
      var found := FindByName(name);
      if found < 0 { return ErrNotFound; }
      var i: nat := found;
      FilesHas(dev.disk, inodes[..], i);
      StatsHas(inodes[..], i);
      var n := inodes[i];
      if owner != 0 && n.owner != owner { return ErrPermission; }
      if n.system && owner != 0 { return ErrPermission; }
      Remove(i, n);
      return Ok;
    }

    /** The permitted delete: the file's blocks freed, then its inode cleared. */
    method Remove(i: nat, n: Inode)
      requires Ready() && Valid(State()) && i < inodes.Length && n == inodes[i] && n.used
      modifies this`free, bitmap, inodes, dev, dev.entries
      ensures Ready() && Valid(State()) && dev.disk == old(dev.disk)
      ensures Files(dev.disk, inodes[..]) == old(Files(dev.disk, inodes[..])) - {n.name}
      ensures Stats(inodes[..]) == old(Stats(inodes[..])) - {n.name}
    {
      ghost var fs0 := State();
      FreeAll(fs0, i, n);
      DeleteCompletes(fs0, State(), i);
      inodes[i] := EMPTY_INODE;
      assert inodes[..] == fs0.inodes[i := EMPTY_INODE];
      StatsDrop(fs0.inodes, inodes[..], i);
    }

    method FreeAll(ghost fs0: Fs, i: nat, n: Inode)
      requires Ready() && Valid(fs0) && State() == fs0 && i < inodes.Length && n == inodes[i]
      modifies this`free, bitmap, dev, dev.entries
      ensures Ready() && FreedBelow(fs0, State(), i, INDIRECT_SLOT + 1)
    {
      for s := 0 to DIRECT_BLOCKS
        invariant Ready() && dev.disk == fs0.disk && FreedBelow(fs0, State(), i, s)
      {
        FreeSlot(fs0, i, s, n.blocks[s]);
      }
      var table := seq(POINTERS_PER_BLOCK, _ => 0);
      if n.indirect != 0 {
        assert SlotOk(fs0, i, INDIRECT_SLOT);
        var block := dev.ReadBlock(n.indirect);
        table := DecodeWords(block);
      } else {
        EmptyTable(dev.disk, n);
      }
      for s := DIRECT_BLOCKS to INDIRECT_SLOT
        invariant Ready() && dev.disk == fs0.disk && FreedBelow(fs0, State(), i, s)
      {
        FreeSlot(fs0, i, s, table[s - DIRECT_BLOCKS]);
      }
      FreeSlot(fs0, i, INDIRECT_SLOT, n.indirect);
    }
  }

  /** Who may write what was just created: the system and its owner, nobody else. */
  method CreatedThenWritten(d: Driver, name: string, owner: nat, system: bool, data: seq<Byte>, caller: nat, now: nat)
    returns (created: Status, wrote: Status)
    requires d.Ready() && Valid(d.State()) && |data| <= MAX_FILE
    modifies d`free, d.bitmap, d.inodes, d.dev, d.dev.entries
    ensures created == Ok ==> (if caller == 0 || caller == owner then wrote in {Ok, ErrFull} else wrote == ErrPermission)
  {
    var i;
    wrote := ErrIo;
    created, i := d.Create(name, owner, system, now);
    if created == Ok {
      var file := new File(i);
      var written;
      wrote, written := d.Write(file, data, caller, now);
    }
  }

  /** Who may delete it: the system, and its owner unless it is a system file. */
  method CreatedThenDeleted(d: Driver, name: string, owner: nat, system: bool, caller: nat, now: nat)
    returns (created: Status, deleted: Status)
    requires d.Ready() && Valid(d.State())
    modifies d`free, d.bitmap, d.inodes, d.dev, d.dev.entries
    ensures created == Ok ==> deleted == if caller == 0 || (caller == owner && !system) then Ok else ErrPermission
  {
    var i;
    deleted := ErrIo;
    created, i := d.Create(name, owner, system, now);
    if created == Ok {
      assert name == Truncated(name);
      deleted := d.Delete(name, caller);
    }
  }

  /** What was written whole is what is read. */
  method WrittenThenRead(d: Driver, i: nat, data: seq<Byte>, now: nat) returns (wrote: Status, written: nat, out: seq<Byte>)
    requires d.Ready() && Valid(d.State()) && i < d.inodes.Length && d.inodes[i].used && |data| <= MAX_FILE
    modifies d`free, d.bitmap, d.inodes, d.dev, d.dev.entries
    ensures wrote in {Ok, ErrFull}
    ensures written == |data| ==> out == data
  {
    ghost var fs0 := d.State();
    var file := new File(i);
    wrote, written := d.Write(file, data, 0, now);
    out := [];
    if written == |data| {
      WrittenIsThere(fs0, d.State(), i, data, now);
      out := ReadStart(d, i, |data|);
    }
  }

  method ReadStart(d: Driver, i: nat, size: nat) returns (out: seq<Byte>)
    requires d.Ready() && Valid(d.State()) && i < d.inodes.Length && d.inodes[i].used && size <= d.inodes[i].size
    modifies d.dev, d.dev.entries
    ensures ZeroTail(old(d.dev.disk), d.inodes[i]) && out == old(Content(d.dev.disk, d.inodes[i]))[..size]
  {
    assert ZeroTail(d.State().disk, d.State().inodes[i]);
    var file := new File(i);
    var _, got := d.Read(file, size);
    out := got;
  }

  lemma WrittenIsThere(fs0: Fs, fs: Fs, i: nat, data: seq<Byte>, now: nat)
    requires WriteOutcome(fs0, fs, i, 0, data, |data|, now) && fs0.inodes[i].used
    requires |fs.inodes| == |fs0.inodes| && fs.inodes[i].used && fs.inodes[i].name == fs0.inodes[i].name
    ensures Valid(fs) && |data| <= fs.inodes[i].size && Content(fs.disk, fs.inodes[i])[..|data|] == data
  {
    WriteWithRoom(fs0, fs, i, 0, data, |data|, now);
    FilesHas(fs0.disk, fs0.inodes, i);
    FilesHas(fs.disk, fs.inodes, i);
    var before := Content(fs0.disk, fs0.inodes[i]);
    OverwriteReads(before, 0, data);
    assert Content(fs.disk, fs.inodes[i]) == Overwrite(before, 0, data);
  }

  function NewFile(name: string, owner: nat, system: bool, now: nat): Inode {
    EMPTY_INODE.(used := true, system := system, owner := owner, modified := now, name := name)
  }

  /** Where the direct blocks end. */
  const PAST_DIRECT: nat := DIRECT_BLOCKS * BLOCK_SIZE

  /** A block that does not hold zeros. */
  function Stale(): (b: Block)
    ensures b != ZeroBlock()
  {
    var b: Block := seq(BLOCK_SIZE, _ => 1);
    assert b[0] != ZeroBlock()[0];
    b
  }

  /** A card with one empty file, and one free block, which is stale. */
  method OneBlockLeft() returns (d: Driver)
    ensures fresh(d) && fresh(d.dev) && fresh(d.dev.entries) && fresh(d.bitmap) && fresh(d.inodes)
    ensures d.Ready() && Valid(d.State()) && d.inodes[..] == [NewFile("f", 0, false, 0)]
    ensures d.dev.disk == [ZeroBlock(), Stale()] && d.dataStart == d.free == 1
  {
    d := new Driver([ZeroBlock(), Stale()], 1, 1);
    assert d.inodes[..][0] == EMPTY_INODE;
    var _, i := d.Create("f", 0, false, 0);
  }

  /** A write that does break ownership: one byte past the direct blocks of an empty
      file, with a single free block left that does not hold zeros. The state before
      is valid, the write is refused for want of room, and yet it leaves a pointer to a
      block nobody owns. */
  method LosingWrite() returns (d: Driver, ghost before: Fs, status: Status)
    ensures Valid(before) && |before.inodes| == 1 && before.inodes[0] == NewFile("f", 0, false, 0)
    ensures LosesIndirect(before.disk, before.inodes[0], PAST_DIRECT, 1, before.free)
    ensures d.Ready() && WriteOutcome(before, d.State(), 0, PAST_DIRECT, [7], 0, 0) && status == ErrFull
    ensures !Owned(d.State())
  {
    d := OneBlockLeft();
    var file := new File(0);
    file.position := PAST_DIRECT;
    before := d.State();
    assert before.disk[1] == Stale();
    var written;
    status, written := d.Write(file, [7], 0, 0);
  }

  /** The byte 0xFF. */
  predicate FullByte(bits: seq<bool>)
    requires |bits| == 8
  {
    bits[0] && bits[1] && bits[2] && bits[3] && bits[4] && bits[5] && bits[6] && bits[7]
  }

  function Truncated(name: string): string {
    if |name| <= MAX_FILENAME then name else name[..MAX_FILENAME]
  }
}
