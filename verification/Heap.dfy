/** The heap end that `sbrk` moves, and the profiler's slab allocator on top of it, which never frees
    anything. */
module Heap {
  import opened Common

  const SLAB: int := 1020

  /** The error value of `sbrk`, as an address: all bits set. */
  const FAILED: int := 0xffff_ffff

  /** The bytes from `lo` up to but not including `hi`. */
  datatype Block = Block(lo: int, hi: int)

  function AlignUp(x: int): (r: int)
    ensures r % 4 == 0 && x <= r < x + 4
  {
    (x + 3) / 4 * 4
  }

  lemma AlignedSum(x: int, n: int)
    requires x % 4 == 0 && n % 4 == 0
    ensures AlignUp(x + n) == x + n
  {
  }

  predicate Disjoint(a: Block, b: Block) {
    a.hi <= b.lo || b.hi <= a.lo
  }

  /** What is left of some blocks when the memory from `end` on is given back. */
  function Below(blocks: seq<Block>, end: int): seq<Block> {
    var n := |blocks| - 1;
    if n < 0 then []
    else Below(blocks[..n], end) + (if blocks[n].lo >= end then [] else [blocks[n].(hi := Min(blocks[n].hi, end))])
  }

  /** The start of one of some blocks, not reaching past `end`. */
  predicate StartOfOne(a: Block, blocks: seq<Block>, end: int) {
    exists i :: 0 <= i < |blocks| && a.lo == blocks[i].lo && a.lo <= a.hi <= blocks[i].hi && a.hi <= end
  }

  /** Each of them is the start of a block there was, and they still do not overlap. */
  lemma {:induction false} BelowStarts(blocks: seq<Block>, end: int)
    requires forall i :: 0 <= i < |blocks| ==> blocks[i].lo <= blocks[i].hi
    requires forall i, j :: 0 <= i < j < |blocks| ==> Disjoint(blocks[i], blocks[j])
    ensures forall k :: 0 <= k < |Below(blocks, end)| ==> StartOfOne(Below(blocks, end)[k], blocks, end)
    ensures forall k, m :: 0 <= k < m < |Below(blocks, end)| ==> Disjoint(Below(blocks, end)[k], Below(blocks, end)[m])
  {
    var n := |blocks| - 1;
    if n >= 0 {
      BelowStarts(blocks[..n], end);
      var before := Below(blocks[..n], end);
      forall k | 0 <= k < |before|
        ensures StartOfOne(before[k], blocks, end) && Disjoint(before[k], blocks[n])
      {
        var i :| 0 <= i < n && before[k].lo == blocks[..n][i].lo
                 && before[k].lo <= before[k].hi <= blocks[..n][i].hi && before[k].hi <= end;
        assert blocks[..n][i] == blocks[i];
      }
    }
  }

  /** Word-aligned blocks inside a heap, no two overlapping, and none overlapping a slab. */
  ghost predicate InOrder(blocks: seq<Block>, start: int, end: int, limit: int, slab: Block) {
    && (forall i :: 0 <= i < |blocks| ==>
          && blocks[i].lo % 4 == 0 && start <= blocks[i].lo <= blocks[i].hi <= end
          && blocks[i].hi <= limit
          && (slab.lo < slab.hi ==> Disjoint(blocks[i], slab)))
    && (forall i, j :: 0 <= i < j < |blocks| ==> Disjoint(blocks[i], blocks[j]))
  }

  lemma BelowInOrder(blocks: seq<Block>, start: int, end: int, limit: int, slab: Block, newEnd: int)
    requires InOrder(blocks, start, end, limit, slab)
    ensures InOrder(Below(blocks, newEnd), start, newEnd, limit, slab)
  {
    BelowStarts(blocks, newEnd);
  }

  lemma AppendInOrder(blocks: seq<Block>, start: int, end: int, limit: int, slab: Block, b: Block)
    requires InOrder(blocks, start, end, limit, slab)
    requires b.lo % 4 == 0 && start <= end <= b.lo <= b.hi <= limit && (slab.lo < slab.hi ==> slab.hi <= end)
    ensures InOrder(blocks + [b], start, b.hi, limit, slab)
  {
  }

  class Allocator {
    const start: int
    const limit: int
    var heapEnd: int
    var slabPtr: int
    var slabSize: int
    ghost var blocks: seq<Block>   // everything handed out to callers, oldest first

    /** Every block handed out is word aligned and inside the heap, no two overlap, and what is left of
        the slab overlaps none of them. */
    ghost predicate Valid()
      reads this
    {
      && 0 < start <= heapEnd && limit < 0x8000_0000 && heapEnd <= AlignUp(limit)
      && 0 <= slabSize <= SLAB && slabPtr % 4 == 0 && slabSize % 4 == 0
      && (slabSize > 0 ==> start <= slabPtr && slabPtr + slabSize <= heapEnd && slabPtr + slabSize <= limit)
      && InOrder(blocks, start, heapEnd, limit, Block(slabPtr, slabPtr + slabSize))
    }

    constructor (heapStart: int, heapLimit: int)
      requires 0 < heapStart <= heapLimit < 0x8000_0000
      ensures Valid() && blocks == [] && start == heapEnd == heapStart && limit == heapLimit && slabSize == 0
    {
      start, limit, heapEnd, slabPtr, slabSize, blocks := heapStart, heapLimit, heapStart, 0, 0, [];
    }

    /** What `sbrk` does to the heap end: aligns it and, unless that would pass the limit or address zero,
        moves it. */
    method Extend(incr: int) returns (r: int)
      requires Valid() && -0x8000_0000 <= incr < 0x8000_0000
      modifies this`heapEnd
      ensures r == if 0 <= AlignUp(old(heapEnd)) + incr <= limit then AlignUp(old(heapEnd)) else FAILED
      ensures heapEnd == AlignUp(old(heapEnd)) + (if r == FAILED then 0 else incr)
      ensures incr >= 0 ==> Valid()
    {
      heapEnd := AlignUp(heapEnd);
      if (heapEnd + incr) % M > limit {
        return FAILED;
      }
      r := heapEnd;
      heapEnd := heapEnd + incr;
    }

    /** A direct `sbrk` call: a new block, or nothing at all; or, with a negative increment, the memory
        above the new heap end is given back.  The books stay in order exactly if the heap end is
        taken neither below the heap's start nor into what is left of the slab, which `sbrk` does not
        check. */
    method Sbrk(incr: int) returns (r: int)
      requires Valid() && -0x8000_0000 <= incr < 0x8000_0000
      modifies this`heapEnd, this`blocks
      ensures r == FAILED <==> AlignUp(old(heapEnd)) + incr > limit || AlignUp(old(heapEnd)) + incr < 0
      ensures r == FAILED ==> Valid() && blocks == old(blocks)
      ensures r != FAILED ==> r == AlignUp(old(heapEnd)) && heapEnd == r + incr
      ensures r == FAILED ==> heapEnd == AlignUp(old(heapEnd))
      ensures r != FAILED && incr >= 0 ==> Valid() && blocks == old(blocks) + [Block(r, r + incr)]
      ensures r != FAILED && incr < 0 ==> blocks == Below(old(blocks), heapEnd)
      ensures r != FAILED && incr < 0 ==>
                (Valid() <==> start <= heapEnd && (slabSize > 0 ==> slabPtr + slabSize <= heapEnd))
    {
      ghost var slab := Block(slabPtr, slabPtr + slabSize);
      ghost var end := heapEnd;
      r := Extend(incr);
      if r != FAILED {
        assert heapEnd <= limit <= AlignUp(limit);
        if incr >= 0 {
          AppendInOrder(blocks, start, end, limit, slab, Block(r, r + incr));
          blocks := blocks + [Block(r, r + incr)];
          assert InOrder(blocks, start, heapEnd, limit, slab);
        } else {
          BelowInOrder(blocks, start, end, limit, slab, heapEnd);
          blocks := Below(blocks, heapEnd);
          assert InOrder(blocks, start, heapEnd, limit, slab);
        }
      }
    }

    /** Can the slab allocator serve the request: from the current slab, or from a new one? */
    predicate CanServe(size: nat)
      reads this
    {
      size <= slabSize || (size <= SLAB && AlignUp(heapEnd) + SLAB <= limit)
    }

    /** Gets a new slab, without checking that there is one; what was left of the old one is lost. */
    method Refill()
      requires Valid()
      modifies this`heapEnd, this`slabPtr, this`slabSize
      ensures AlignUp(old(heapEnd)) + SLAB <= limit ==>
                Valid() && slabPtr == AlignUp(old(heapEnd)) && slabPtr + SLAB == heapEnd
      ensures AlignUp(old(heapEnd)) + SLAB > limit ==> slabPtr == FAILED
      ensures slabSize == SLAB
    {
      slabPtr := Extend(SLAB);
      slabSize := SLAB;
    }

    /** Cuts a block off the slab, without checking that it fits. */
    method Cut(size: nat) returns (data: int)
      requires size % 4 == 0
      modifies this`slabPtr, this`slabSize, this`blocks
      ensures data == old(slabPtr) && blocks == old(blocks) + [Block(data, data + size)]
      ensures slabPtr == data + size && slabSize == old(slabSize) - size
      ensures old(Valid()) && 0 < size <= old(slabSize) ==> Valid()
    {
      data := slabPtr;
      slabPtr := slabPtr + size;
      slabSize := slabSize - size;
      blocks := blocks + [Block(data, data + size)];
    }

    /** The slab allocator.  It checks neither that `sbrk` succeeded nor that a new slab is large enough.
        The bytes it hands out lie in memory it has got from the heap exactly if it can serve the
        request, and then they are a new block. */
    method Allocate(size: nat) returns (data: int)
      requires Valid() && 0 < size < 0x8000_0000 && size % 4 == 0
      modifies this
      ensures old(CanServe(size)) ==> Valid() && blocks == old(blocks) + [Block(data, data + size)]
      ensures size > old(slabSize) && AlignUp(old(heapEnd)) + SLAB > limit ==> data == FAILED
      ensures size <= old(slabSize) ==>
                data == old(slabPtr) && slabSize == old(slabSize) - size && heapEnd == old(heapEnd)
      ensures size > old(slabSize) && AlignUp(old(heapEnd)) + SLAB <= limit ==>
                data == AlignUp(old(heapEnd)) && slabSize == SLAB - size && heapEnd == data + SLAB
      ensures slabPtr == data + size
      ensures old(CanServe(size)) <==> start <= data && data + size <= heapEnd && data + size <= limit
    {
      if size > slabSize {
        Refill();
      }
      data := Cut(size);
    }
  }

  /** Successive blocks are contiguous, and asking for nothing reads the heap's end. */
  method TwoBlocks(a: Allocator, first: int, second: int) returns (r: int, s: int, end: int)
    requires a.Valid() && 0 <= first < 0x8000_0000 && 0 <= second < 0x8000_0000
    requires first % 4 == 0 && second % 4 == 0
    modifies a
    ensures a.Valid()
    ensures r != FAILED && s != FAILED ==> s == r + first && end == s + second == a.heapEnd
  {
    r := a.Sbrk(first);
    if r != FAILED {
      AlignedSum(r, first);
    }
    s := a.Sbrk(second);
    if s != FAILED {
      AlignedSum(s, second);
    }
    end := a.Sbrk(0);
  }

  /** The first request of a program lies in its heap exactly if a whole slab fits there.  In a heap of
      less than 1020 bytes it is answered with the error value of `sbrk` as an address. */
  method FirstRequest(heapStart: int, heapLimit: int, size: nat) returns (a: Allocator, data: int)
    requires 0 < heapStart <= heapLimit < 0x8000_0000
    requires 0 < size <= SLAB && size % 4 == 0
    ensures a.start == heapStart && a.limit == heapLimit
    ensures heapStart <= data && data + size <= heapLimit <==> AlignUp(heapStart) + SLAB <= heapLimit
    ensures heapLimit - heapStart < SLAB ==> data == FAILED
  {
    a := new Allocator(heapStart, heapLimit);
    data := a.Allocate(size);
  }
}
