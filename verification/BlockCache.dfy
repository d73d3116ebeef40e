/**
 The write-through block cache between the file system and the SD card. The
 card is a sequence of blocks whose reads and writes succeed; the cache is
 proved to be invisible: reads and writes act on the card itself.
 */
module BlockCache {

  const BLOCK_SIZE: nat := 512
  const CACHE_SIZE: nat := 16
  const NO_BLOCK: nat := 0xFFFF_FFFF

  type Byte = b: nat | b < 256
  type Block = b: seq<Byte> | |b| == BLOCK_SIZE ghost witness seq(BLOCK_SIZE, _ => 0)

  datatype Entry = Entry(blockNum: nat, accessCount: nat, dirty: bool, data: Block)

  class Device {
    var disk: seq<Block>
    const entries: array<Entry>
    var accessCounter: nat
    var hits: nat
    var misses: nat
    var enabled: bool

    predicate Holds(e: Entry)
      reads this
    {
      e.blockNum != NO_BLOCK ==> e.blockNum < |disk| && e.data == disk[e.blockNum]
    }

    /** Cached blocks are distinct, every valid entry equals its disk block, no
        entry is newer than the access counter, and a disabled cache is empty. */
    ghost predicate Valid()
      reads this, entries
    {
      && entries.Length == CACHE_SIZE
      && |disk| <= NO_BLOCK
      && (forall i :: 0 <= i < CACHE_SIZE ==> Holds(entries[i]) && entries[i].accessCount <= accessCounter)
      && (forall i, j :: 0 <= i < j < CACHE_SIZE && entries[i].blockNum == entries[j].blockNum ==> entries[i].blockNum == NO_BLOCK)
      && (!enabled ==> forall i :: 0 <= i < CACHE_SIZE ==> entries[i].blockNum == NO_BLOCK)
    }

    /** Least recently accessed, counting a never used slot as access 0. */
    ghost predicate Oldest(i: nat)
      requires entries.Length == CACHE_SIZE && i < CACHE_SIZE
      reads entries
    {
      forall k :: 0 <= k < CACHE_SIZE ==> entries[i].accessCount <= entries[k].accessCount
    }

    constructor (card: seq<Block>)
      requires |card| <= NO_BLOCK
      ensures Valid() && fresh(entries) && disk == card && enabled
    {
      disk := card;
      accessCounter, hits, misses, enabled := 0, 0, 0, true;
      entries := new Entry[CACHE_SIZE](_ => Entry(NO_BLOCK, 0, false, seq(BLOCK_SIZE, _ => 0)));
    }

    /** The entry that caches the block, now the most recently accessed, or -1. */
    method Find(blockNum: nat) returns (idx: int)
      requires Valid() && blockNum < |disk|
      modifies this`accessCounter, this`hits, this`misses, entries
      ensures Valid() && -1 <= idx < CACHE_SIZE
      ensures idx >= 0 ==>
                && entries[idx].blockNum == blockNum
                && entries[..] == old(entries[..])[idx := entries[idx]]
                && entries[idx].data == old(entries[idx].data)
                && entries[idx].accessCount == accessCounter > old(accessCounter)
      ensures idx < 0 ==> entries[..] == old(entries[..]) && accessCounter == old(accessCounter)
      ensures idx < 0 && enabled ==> forall i :: 0 <= i < CACHE_SIZE ==> entries[i].blockNum != blockNum
      ensures !enabled ==> idx < 0
    {
      if !enabled { return -1; }
      for i := 0 to CACHE_SIZE
        invariant Valid() && entries[..] == old(entries[..]) && accessCounter == old(accessCounter)
        invariant forall k :: 0 <= k < i ==> entries[k].blockNum != blockNum
      {
        if entries[i].blockNum == blockNum {
          accessCounter := accessCounter + 1;
          entries[i] := entries[i].(accessCount := accessCounter);
          hits := hits + 1;
          return i;
        }
      }
      misses := misses + 1;
      return -1;
    }

    /** An empty slot, or else the least recently accessed one. Slot 0 is not
        looked at for emptiness: while it is empty and no later slot is, it is
        taken only by its access count. */
    method FindLru() returns (idx: nat)
      requires Valid()
      ensures idx < CACHE_SIZE
      ensures entries[idx].blockNum == NO_BLOCK || Oldest(idx)
    {
      idx := 0;
      var minAccess := entries[0].accessCount;
      for i := 1 to CACHE_SIZE
        invariant idx < i && minAccess == entries[idx].accessCount
        invariant forall k :: 0 <= k < i ==> minAccess <= entries[k].accessCount
      {
        if entries[i].blockNum == NO_BLOCK { return i; }
        if entries[i].accessCount < minAccess { minAccess, idx := entries[i].accessCount, i; }
      }
    }

    /** Writing a dirty entry back changes nothing: its block is already on the card. */
    method WriteBack(idx: nat)
      requires Valid() && idx < CACHE_SIZE
      modifies this`disk, entries
      ensures Valid() && disk == old(disk)
      ensures entries[..] == old(entries[..])[idx := old(entries[idx]).(dirty := entries[idx].dirty)]
      ensures old(entries[idx].blockNum) != NO_BLOCK ==> !entries[idx].dirty
    {
      if entries[idx].dirty && entries[idx].blockNum != NO_BLOCK {
        disk := disk[entries[idx].blockNum := entries[idx].data];
        entries[idx] := entries[idx].(dirty := false);
      }
    }

    /** Caches a block that is not cached yet; the slot it takes was empty or the
        least recently accessed, and every other slot keeps its entry. */
    method Insert(blockNum: nat, data: Block)
      requires Valid() && enabled && blockNum < |disk| && data == disk[blockNum]
      requires forall i :: 0 <= i < CACHE_SIZE ==> entries[i].blockNum != blockNum
      modifies this`disk, this`accessCounter, entries
      ensures Valid() && disk == old(disk)
      ensures exists idx :: 0 <= idx < CACHE_SIZE
                && (old(entries[idx].blockNum) == NO_BLOCK || old(Oldest(idx)))
                && entries[..] == old(entries[..])[idx := Entry(blockNum, accessCounter, false, data)]
    {
      var idx := FindLru();
      WriteBack(idx);
      accessCounter := accessCounter + 1;
      entries[idx] := Entry(blockNum, accessCounter, false, data);
      assert entries[..] == old(entries[..])[idx := entries[idx]];
    }

    method ReadBlock(blockNum: nat) returns (buffer: Block)
      requires Valid() && blockNum < |disk|
      modifies this`disk, this`accessCounter, this`hits, this`misses, entries
      ensures Valid() && disk == old(disk)
      ensures buffer == disk[blockNum]
    {
      var idx := Find(blockNum);
      if idx >= 0 { return entries[idx].data; }
      buffer := disk[blockNum];
      if enabled { Insert(blockNum, buffer); }
    }

    method WriteBlock(blockNum: nat, buffer: Block)
      requires Valid() && blockNum < |disk|
      modifies this`disk, this`accessCounter, this`hits, this`misses, entries
      ensures Valid() && disk == old(disk)[blockNum := buffer]
    {
      var idx := Find(blockNum);
      if idx >= 0 {
        accessCounter := accessCounter + 1;
        entries[idx] := Entry(entries[idx].blockNum, accessCounter, true, buffer);
        disk := disk[blockNum := buffer];
        return;
      }
      disk := disk[blockNum := buffer];
      if enabled { Insert(blockNum, buffer); }
    }

    method Flush()
      requires Valid()
      modifies this`disk, entries
      ensures Valid() && disk == old(disk)
      ensures forall i :: 0 <= i < CACHE_SIZE && entries[i].blockNum != NO_BLOCK ==> !entries[i].dirty
    {
      for i := 0 to CACHE_SIZE
        invariant Valid() && disk == old(disk)
        invariant forall k :: 0 <= k < i && entries[k].blockNum != NO_BLOCK ==> !entries[k].dirty
      {
        if entries[i].dirty { WriteBack(i); }
      }
    }
  }
}
