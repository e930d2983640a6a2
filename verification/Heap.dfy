/** The bump allocator behind sbrk, and the profiler's allocator on top of it, which
    carves small records out of slabs. */
module Heap {
  import opened Words
  import opened Bits

  /** Addresses and request sizes stay below this, so their sum does not wrap. */
  const HALF: nat := 0x8000_0000
  const SLAB_INCREMENT: nat := 1020

  /** A stretch of memory; `slab` marks those the profiler asked for. */
  datatype Block = Block(addr: nat, size: nat, slab: bool)
  {
    function End(): nat {
      addr + size
    }
  }

  predicate Disjoint(a: Block, b: Block) {
    a.End() <= b.addr || b.End() <= a.addr
  }

  predicate AlignedAt(a: nat) {
    a % 4 == 0
  }

  /** The next word boundary. */
  function RoundUp(x: nat): (r: nat)
    ensures x <= r <= x + 3 && AlignedAt(r)
  {
    (x + 3) / 4 * 4
  }

  lemma RoundUpLeast(x: nat, a: nat)
    requires x <= a && AlignedAt(a)
    ensures RoundUp(x) <= a
  {
  }

  /** Clearing the two lowest bits of an address rounds it down to a word. */
  lemma ClearLowBits(x: nat)
    requires x < WORD
    ensures And(x, 0xFFFF_FFFC) == x / 4 * 4
  {
    PowAdd(2, 10, 10);
    PowAdd(2, 20, 10);
    assert Pow(2, 10) == 1024 by {
      PowAdd(2, 5, 5);
      assert Pow(2, 5) == 32;
    }
    assert Pow(2, 2) == 4;
    MaskField(x, 30, 2);
    assert x / 4 < Pow(2, 30);
    SmallRemainder(x / 4, Pow(2, 30));
  }

  lemma SmallRemainder(x: nat, m: nat)
    requires x < m
    ensures x % m == x
  {
    Remainder(x, m, 0, x);
  }

  /** All blocks of `s` are apart from `b`. */
  ghost predicate Apart(s: seq<Block>, b: Block) {
    forall x :: x in s ==> Disjoint(x, b)
  }

  /** No two of the blocks overlap. */
  ghost predicate AllApart(s: seq<Block>) {
    s == [] || (AllApart(s[..|s| - 1]) && Apart(s[..|s| - 1], s[|s| - 1]))
  }

  ghost predicate Below(s: seq<Block>, limit: nat) {
    forall x :: x in s ==> x.End() <= limit
  }

  /** The blocks that other callers than the profiler asked for. */
  ghost predicate RecordsApart(records: seq<Block>, free: Block, blocks: seq<Block>) {
    forall b :: b in blocks && !b.slab ==> Disjoint(free, b) && Apart(records, b)
  }

  lemma {:induction false} AllApartMeans(s: seq<Block>, i: nat, j: nat)
    requires AllApart(s) && i < j < |s|
    ensures Disjoint(s[i], s[j])
  {
    if j == |s| - 1 {
      assert s[i] in s[..|s| - 1];
    } else {
      AllApartMeans(s[..|s| - 1], i, j);
    }
  }

  lemma AllApartSnoc(s: seq<Block>, b: Block)
    requires AllApart(s) && Apart(s, b)
    ensures AllApart(s + [b])
  {
    assert (s + [b])[..|s|] == s;
  }

  /** A record cut off the front of the slab is apart from everything else, and so
      is what is left of the slab. */
  lemma CutOff(records: seq<Block>, free: Block, size: nat, blocks: seq<Block>, limit: nat)
    requires 0 < size <= free.size && Below(records + [free], limit)
    requires AllApart(records) && Apart(records, free) && RecordsApart(records, free, blocks)
    ensures var r, rest := Block(free.addr, size, true), Block(free.addr + size, free.size - size, true);
            && Apart(records, r) && AllApart(records + [r]) && Apart(records + [r], rest)
            && Below(records + [r] + [rest], limit) && RecordsApart(records + [r], rest, blocks)
  {
    var r, rest := Block(free.addr, size, true), Block(free.addr + size, free.size - size, true);
    forall x | x in records
      ensures Disjoint(x, r) && Disjoint(x, rest) && x.End() <= limit
    {
      assert Disjoint(x, free) && x in records + [free];
    }
    assert free in records + [free];
    AllApartSnoc(records, r);
    forall b | b in blocks && !b.slab
      ensures Disjoint(rest, b) && Apart(records + [r], b)
    {
      assert Disjoint(free, b) && Apart(records, b);
    }
  }

  method Align(x: nat) returns (r: nat)
    requires x + 3 < WORD
    ensures r == RoundUp(x)
  {
    ClearLowBits(x + 3);
    r := And(x + 3, 0xFFFF_FFFC);
  }

  class Allocator {
    const heapStart: nat
    const heapLimit: nat
    var heapEnd: nat
    /** The profiler's current slab: what is left of it. */
    var slabPtr: nat
    var slabSize: nat
    /** Every block sbrk ever returned, in order, and every record carved out. */
    ghost var blocks: seq<Block>
    ghost var records: seq<Block>

    ghost function Free(): Block
      reads this
    {
      Block(slabPtr, slabSize, true)
    }

    /** Whether records of `size` bytes in all can still be had. */
    predicate Available(size: nat)
      reads this`slabSize, this`heapEnd
    {
      size <= slabSize || RoundUp(heapEnd) + SLAB_INCREMENT <= heapLimit
    }

    ghost predicate Valid()
      reads this
    {
      && heapStart <= heapEnd <= RoundUp(heapLimit)
      && (slabSize > 0 ==> heapStart <= slabPtr && Free().End() <= heapLimit)
      && (forall b :: b in blocks ==> AlignedAt(b.addr) && heapStart <= b.addr && b.End() <= heapLimit)
      && Below(blocks, heapEnd) && AllApart(blocks)
      && Below(records + [Free()], heapEnd) && AllApart(records) && Apart(records, Free())
      && RecordsApart(records, Free(), blocks)
    }

    constructor (start: nat, limit: nat)
      requires start <= limit
      ensures Valid() && blocks == [] && records == [] && slabSize == 0 && heapLimit == limit
    {
      heapStart, heapLimit, heapEnd := start, limit, start;
      slabPtr, slabSize := 0, 0;
      blocks, records := [], [];
    }

    /** Extend the heap by `incr` bytes from the next word boundary on; none when
        the limit would be passed. */
    method Sbrk(incr: nat, ghost slab: bool) returns (r: Option<nat>)
      requires Valid() && heapLimit + 6 < HALF && incr < HALF
      modifies this`heapEnd, this`blocks
      ensures Valid() && old(heapEnd) <= heapEnd
      ensures r.None? <==> RoundUp(old(heapEnd)) + incr > heapLimit
      ensures r.None? ==> blocks == old(blocks)
      ensures r.Some? ==>
                && r.value == RoundUp(old(heapEnd)) && blocks == old(blocks) + [Block(r.value, incr, slab)]
                && old(heapEnd) <= r.value && heapEnd == r.value + incr
    {
      AlignEnd();
      assert heapEnd + incr < WORD;
      if heapEnd + incr > heapLimit {
        return None;
      }
      r := Some(heapEnd);
      Append(Block(heapEnd, incr, slab));
      heapEnd := heapEnd + incr;
    }

    method AlignEnd()
      requires Valid() && heapLimit + 6 < HALF
      modifies this`heapEnd
      ensures Valid() && heapEnd == RoundUp(old(heapEnd))
    {
      RoundUpLeast(heapEnd, RoundUp(heapLimit));
      heapEnd := Align(heapEnd);
    }

    /** Log a new block at the end of the heap. */
    ghost method Append(b: Block)
      requires Valid() && b.addr == heapEnd && AlignedAt(heapEnd) && b.End() <= heapLimit
      modifies this`blocks
      ensures blocks == old(blocks) + [b]
      ensures forall x :: x in blocks ==> AlignedAt(x.addr) && heapStart <= x.addr && x.End() <= heapLimit
      ensures Below(blocks, b.End()) && AllApart(blocks) && RecordsApart(records, Free(), blocks)
    {
      AllApartSnoc(blocks, b);
      assert Apart(records, b) && Disjoint(Free(), b);
      blocks := blocks + [b];
    }

    /** Start a new slab; without memory for it the slab is no memory. */
    method Refill() returns (ok: bool)
      requires Valid() && heapLimit + 6 < HALF
      modifies this`heapEnd, this`blocks, this`slabPtr, this`slabSize
      ensures ok <==> RoundUp(old(heapEnd)) + SLAB_INCREMENT <= heapLimit
      ensures slabSize == SLAB_INCREMENT
      ensures ok ==> Valid() && old(blocks) <= blocks && forall b :: b in blocks[|old(blocks)|..] ==> b.slab
    {
      var slab := Sbrk(SLAB_INCREMENT, true);
      ok := slab.Some?;
      slabPtr := if ok then slab.value else WORD - 1;
      slabSize := SLAB_INCREMENT;
    }

    /** Cut a record off the front of the slab. */
    method Carve(size: nat, ghost memory: bool) returns (data: nat)
      requires 0 < size <= slabSize && (memory ==> Valid())
      modifies this`records, this`slabPtr, this`slabSize
      ensures data == old(slabPtr) && slabSize == old(slabSize) - size
      ensures memory ==>
                && Valid() && Apart(old(records), Block(data, size, true))
                && records == old(records) + [Block(data, size, true)]
                && heapStart <= data && data + size <= heapLimit
    {
      data := slabPtr;
      ghost var r := Block(data, size, true);
      if memory {
        CutOff(records, Free(), size, blocks, heapEnd);
        records := records + [r];
      }
      slabPtr := slabPtr + size;
      slabSize := slabSize - size;
    }

    /** Take a record from the slab, starting a new slab when it does not fit.
        `refilled` is false when a new slab was needed and could not be had; what
        is returned then is no memory. */
    method McountAllocate(size: nat) returns (data: nat, refilled: bool)
      requires Valid() && heapLimit + 6 < HALF && 0 < size <= SLAB_INCREMENT
      modifies this
      ensures refilled <==> old(Available(size))
      ensures refilled ==>
                && Apart(old(records), Block(data, size, true))
                && Valid() && records == old(records) + [Block(data, size, true)]
                && old(blocks) <= blocks && (forall b :: b in blocks[|old(blocks)|..] ==> b.slab)
                && heapStart <= data && data + size <= heapLimit
      ensures slabSize == (if size <= old(slabSize) then old(slabSize) else SLAB_INCREMENT) - size
      ensures size <= old(slabSize) ==> heapEnd == old(heapEnd)
    {
      refilled := true;
      if size > slabSize {
        refilled := Refill();
      }
      data := Carve(size, refilled);
    }
  }
}
