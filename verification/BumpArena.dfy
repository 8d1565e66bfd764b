/**
 The demangler's bump-pointer allocator: a linked list of blocks, small
 requests carved from the head block, oversized requests given a block of
 their own behind the head, and a reset that frees everything but the buffer
 embedded in the allocator.  LP64: a block header takes 16 bytes.
 */
module BumpArena {
  import opened Bits

  const ALLOC_SIZE: nat := 4096
  const META_SIZE: nat := 16
  const USABLE: nat := ALLOC_SIZE - META_SIZE
  /** Identifier of the buffer embedded in the allocator; malloc'd blocks are numbered from 1. */
  const INITIAL: nat := 0

  // ---- The arena as a value ----

  /** `usable` is the number of bytes behind the header; `current` how many are handed out (0 in oversized blocks). */
  datatype Blk = Blk(usable: nat, current: nat)

  /** What one call to allocate returned: the place, the bytes reserved there, and the bytes asked for. */
  datatype Region = Region(block: nat, offset: nat, size: nat, asked: nat)

  /** The block list as identifiers, the blocks themselves, the next malloc'd identifier, the regions since the last
      reset and the blocks freed so far. */
  datatype Arena = Arena(order: seq<nat>, blocks: map<nat, Blk>, nextId: nat, regions: seq<Region>, freed: seq<nat>)

  const EmptyBlock: Blk := Blk(USABLE, 0)
  const Empty: Arena := Arena([INITIAL], map[INITIAL := EmptyBlock], 1, [], [])

  predicate SizeT(n: nat) {
    n < TWO_64
  }

  /** `(N + 15u) & ~15u`: the mask is 32 bits wide, the sum 64. */
  function RoundSize(n: nat): nat {
    And((n + 15) % TWO_64, TWO_32 - 16)
  }

  lemma RoundSizeValue(n: nat)
    ensures var y := (n + 15) % TWO_64; RoundSize(n) == y % TWO_32 - y % 16
    ensures RoundSize(n) % 16 == 0 && RoundSize(n) <= TWO_32 - 16
  {
    var y: nat := (n + 15) % TWO_64;
    Pow2Values();
    AndBand(y, 32, 4);
    SixteensBelow(y);
  }

  lemma SixteensBelow(y: nat)
    ensures (y % TWO_32 - y % 16) % 16 == 0 && 0 <= y % TWO_32 - y % 16 <= TWO_32 - 16
  {
    var k := y / 16 - 0x1000_0000 * (y / TWO_32);
    assert y % TWO_32 - y % 16 == 16 * k;
  }

  /** Rounding yields a multiple of 16, and covers the request exactly if it is at most 2^32 - 16. */
  lemma RoundSizeCovers(n: nat)
    requires SizeT(n)
    ensures RoundSize(n) % 16 == 0
    ensures RoundSize(n) >= n <==> n <= TWO_32 - 16
    ensures n <= TWO_32 - 16 ==> RoundSize(n) < n + 16
  {
    RoundSizeValue(n);
    if n <= TWO_32 - 16 {
      assert (n + 15) % TWO_64 == n + 15 && (n + 15) % TWO_32 == n + 15;
    }
  }

  predicate Shaped(a: Arena) {
    |a.order| > 0 && a.order[0] in a.blocks
  }

  function Head(a: Arena): Blk
    requires Shaped(a)
  {
    a.blocks[a.order[0]]
  }

  function GrowStep(a: Arena): (r: Arena)
    ensures Shaped(r)
  {
    a.(order := [a.nextId] + a.order, blocks := a.blocks[a.nextId := EmptyBlock], nextId := a.nextId + 1)
  }

  /** A block of its own, linked in behind the head. */
  function MassiveStep(a: Arena, n: nat, asked: nat): Arena
    requires Shaped(a)
  {
    Arena([a.order[0], a.nextId] + a.order[1..], a.blocks[a.nextId := Blk(n, 0)], a.nextId + 1,
          a.regions + [Region(a.nextId, 0, n, asked)], a.freed)
  }

  /** The next `n` bytes of the head block. */
  function CarveStep(a: Arena, n: nat, asked: nat): Arena
    requires Shaped(a)
  {
    var b := Head(a);
    a.(blocks := a.blocks[a.order[0] := b.(current := b.current + n)],
       regions := a.regions + [Region(a.order[0], b.current, n, asked)])
  }

  function AllocateStep(a: Arena, asked: nat): (r: Arena)
    requires Shaped(a)
    ensures Shaped(r) && |r.regions| == |a.regions| + 1
  {
    var n := RoundSize(asked);
    if n + Head(a).current < USABLE then CarveStep(a, n, asked)
    else if n > USABLE then MassiveStep(a, n, asked)
    else CarveStep(GrowStep(a), n, asked)
  }

  /** The malloc'd blocks of a list, in order. */
  function Malloced(order: seq<nat>): seq<nat> {
    if order == [] then []
    else (if order[0] == INITIAL then [] else [order[0]]) + Malloced(order[1..])
  }

  function ResetStep(a: Arena): Arena {
    Arena(Empty.order, Empty.blocks, a.nextId, [], a.freed + Malloced(a.order))
  }

  datatype Op = Alloc(asked: nat) | DoReset

  function Run(a: Arena, ops: seq<Op>): Arena
    requires Shaped(a)
    decreases |ops|
  {
    if ops == [] then a
    else match ops[0]
      case Alloc(n) => Run(AllocateStep(a, n), ops[1..])
      case DoReset => Run(ResetStep(a), ops[1..])
  }

  // ---- What the arena keeps ----

  ghost predicate NoDup(s: seq<nat>) {
    forall i, j :: 0 <= i < j < |s| ==> s[i] != s[j]
  }

  ghost predicate Disjoint(r: Region, q: Region) {
    r.block != q.block || r.offset + r.size <= q.offset || q.offset + q.size <= r.offset
  }

  /** The bytes of a block that may have been handed out. */
  function Handed(b: Blk): nat {
    if b.usable == USABLE then b.current else b.usable
  }

  ghost predicate Fits(a: Arena, r: Region) {
    r.block in a.blocks && r.offset + r.size <= Handed(a.blocks[r.block])
  }

  /** The list holds each live block once, the embedded buffer among them, and no block is overfull. */
  ghost predicate InvBlocks(a: Arena) {
    && Shaped(a) && Head(a).usable == USABLE
    && NoDup(a.order)
    && (forall x :: x in a.order <==> x in a.blocks)
    && INITIAL in a.blocks
    && (forall x :: x in a.blocks ==> x < a.nextId && BlockOk(a.blocks[x]))
  }

  predicate BlockOk(b: Blk) {
    b.current <= b.usable && b.current % 16 == 0
  }

  /** Regions lie inside live blocks at 16-byte offsets and do not overlap. */
  ghost predicate InvRegions(a: Arena) {
    && (forall k :: 0 <= k < |a.regions| ==> Fits(a, a.regions[k]) && RegionOk(a.regions[k]))
    && (forall k, l :: 0 <= k < l < |a.regions| ==> Disjoint(a.regions[k], a.regions[l]))
  }

  predicate RegionOk(r: Region) {
    r.offset % 16 == 0 && SizeT(r.asked) && r.size == RoundSize(r.asked)
  }

  /** Conservation: every block ever malloc'd is either live or freed, never both, and freed only once. */
  ghost predicate InvFreed(a: Arena) {
    && NoDup(a.freed)
    && (forall x :: x in a.freed ==> x !in a.blocks && 1 <= x < a.nextId)
    && (forall x :: 1 <= x < a.nextId ==> x in a.freed || x in a.blocks)
  }

  ghost predicate Inv(a: Arena) {
    InvBlocks(a) && InvRegions(a) && InvFreed(a)
  }

  // ---- Every operation keeps it ----

  lemma GrowKeeps(a: Arena)
    requires Inv(a)
    ensures Inv(GrowStep(a)) && Head(GrowStep(a)).current == 0
  {
    GrowKeepsBlocks(a);
    GrowKeepsRegions(a);
  }

  lemma GrowKeepsBlocks(a: Arena)
    requires InvBlocks(a) && InvFreed(a)
    ensures InvBlocks(GrowStep(a)) && InvFreed(GrowStep(a))
  {
    var g := GrowStep(a);
    assert a.nextId !in a.order;
    assert forall x :: x in g.order <==> x == a.nextId || x in a.order;
  }

  lemma GrowKeepsRegions(a: Arena)
    requires InvBlocks(a) && InvRegions(a)
    ensures InvRegions(GrowStep(a))
  {
    forall k | 0 <= k < |a.regions| ensures Fits(GrowStep(a), a.regions[k]) {
      assert Fits(a, a.regions[k]);
    }
  }

  lemma CarveKeepsBlocks(a: Arena, n: nat, asked: nat)
    requires InvBlocks(a) && InvFreed(a) && n % 16 == 0 && n + Head(a).current <= USABLE
    ensures InvBlocks(CarveStep(a, n, asked)) && InvFreed(CarveStep(a, n, asked))
  {
    assert BlockOk(Head(a));
    SumOfSixteens(Head(a).current, n);
    ReplacedHead(a, Head(a).(current := Head(a).current + n), asked, n);
  }

  lemma SumOfSixteens(x: nat, y: nat)
    requires x % 16 == 0 && y % 16 == 0
    ensures (x + y) % 16 == 0
  {
  }

  lemma ReplacedHead(a: Arena, b: Blk, asked: nat, n: nat)
    requires InvBlocks(a) && InvFreed(a) && BlockOk(b) && b == Head(a).(current := Head(a).current + n)
    ensures InvBlocks(CarveStep(a, n, asked)) && InvFreed(CarveStep(a, n, asked))
  {
    assert CarveStep(a, n, asked).blocks == a.blocks[a.order[0] := b];
    assert CarveStep(a, n, asked).blocks.Keys == a.blocks.Keys;
  }

  lemma CarveKeepsRegions(a: Arena, n: nat, asked: nat)
    requires InvBlocks(a) && InvRegions(a) && n + Head(a).current <= USABLE
    requires RegionOk(Region(a.order[0], Head(a).current, n, asked))
    ensures InvRegions(CarveStep(a, n, asked))
  {
    var c := CarveStep(a, n, asked);
    var last := c.regions[|a.regions|];
    forall k | 0 <= k < |a.regions| ensures Fits(c, a.regions[k]) && Disjoint(a.regions[k], last) {
      assert Fits(a, a.regions[k]);
    }
  }

  lemma CarveKeeps(a: Arena, asked: nat)
    requires Inv(a) && SizeT(asked) && RoundSize(asked) + Head(a).current <= USABLE
    ensures Inv(CarveStep(a, RoundSize(asked), asked))
  {
    var n := RoundSize(asked);
    RoundSizeValue(asked);
    CarveKeepsBlocks(a, n, asked);
    CarveKeepsRegions(a, n, asked);
  }

  lemma MassiveOrder(a: Arena, id: nat)
    requires |a.order| > 0 && NoDup(a.order) && id !in a.order
    ensures var o := [a.order[0], id] + a.order[1..];
            NoDup(o) && forall x :: x in o <==> x == id || x in a.order
  {
    var o := [a.order[0], id] + a.order[1..];
    assert forall i :: 2 <= i < |o| ==> o[i] == a.order[i - 1];
    assert a.order == [a.order[0]] + a.order[1..];
  }

  lemma MassiveKeepsBlocks(a: Arena, n: nat, asked: nat)
    requires InvBlocks(a) && InvFreed(a) && BlockOk(Blk(n, 0))
    ensures InvBlocks(MassiveStep(a, n, asked)) && InvFreed(MassiveStep(a, n, asked))
  {
    assert a.nextId !in a.order;
    MassiveOrder(a, a.nextId);
  }

  lemma MassiveKeepsRegions(a: Arena, n: nat, asked: nat)
    requires InvBlocks(a) && InvRegions(a) && RegionOk(Region(a.nextId, 0, n, asked)) && n == Handed(Blk(n, 0))
    ensures InvRegions(MassiveStep(a, n, asked))
  {
    var m := MassiveStep(a, n, asked);
    forall k | 0 <= k < |a.regions| ensures Fits(m, a.regions[k]) && a.regions[k].block != a.nextId {
      assert Fits(a, a.regions[k]);
    }
  }

  lemma MassiveKeeps(a: Arena, asked: nat)
    requires Inv(a) && SizeT(asked) && RoundSize(asked) > USABLE
    ensures Inv(MassiveStep(a, RoundSize(asked), asked))
  {
    RoundSizeCovers(asked);
    MassiveKeepsBlocks(a, RoundSize(asked), asked);
    MassiveKeepsRegions(a, RoundSize(asked), asked);
  }

  lemma AllocateKeeps(a: Arena, asked: nat)
    requires Inv(a) && SizeT(asked)
    ensures Inv(AllocateStep(a, asked))
  {
    var n := RoundSize(asked);
    if n + Head(a).current < USABLE {
      CarveKeeps(a, asked);
    } else if n > USABLE {
      MassiveKeeps(a, asked);
    } else {
      GrowKeeps(a);
      CarveKeeps(GrowStep(a), asked);
    }
  }

  /** Where a request of `n` bytes, rounded, goes: right behind what the head block has handed out if that leaves some
      of its 4080 bytes free; above 4080 bytes into a block of its own, behind the head, which stays as it was;
      otherwise to the start of a new head block of 4080 bytes. A block is added exactly in the last two cases. */
  lemma AllocatePlaces(a: Arena, asked: nat)
    requires Inv(a) && SizeT(asked)
    ensures var a', n, head := AllocateStep(a, asked), RoundSize(asked), Head(a);
            var r := a'.regions[|a.regions|];
            if n + head.current < 4080 then
              && r == Region(a.order[0], head.current, n, asked)
              && a'.order == a.order && a'.nextId == a.nextId && Head(a') == Blk(4080, head.current + n)
            else if n > 4080 then
              && r == Region(a.nextId, 0, n, asked) && a'.blocks == a.blocks[a.nextId := Blk(n, 0)]
              && a'.order == [a.order[0], a.nextId] + a.order[1..] && a'.nextId == a.nextId + 1
            else
              && r == Region(a.nextId, 0, n, asked) && a'.blocks == a.blocks[a.nextId := Blk(4080, n)]
              && a'.order == [a.nextId] + a.order && a'.nextId == a.nextId + 1
  {
    if RoundSize(asked) + Head(a).current >= 4080 && RoundSize(asked) <= 4080 {
      var g := GrowStep(a);
      assert g.blocks[a.nextId := Blk(4080, RoundSize(asked))] == a.blocks[a.nextId := Blk(4080, RoundSize(asked))];
    }
  }

  lemma {:induction false} MallocedFilters(order: seq<nat>)
    ensures forall x :: x in Malloced(order) <==> x in order && x != INITIAL
    ensures NoDup(order) ==> NoDup(Malloced(order))
  {
    if order != [] {
      MallocedFilters(order[1..]);
      assert order == [order[0]] + order[1..];
      if NoDup(order) {
        assert order[0] !in order[1..];
      }
    }
  }

  lemma {:induction false} MallocedAppend(order: seq<nat>, x: nat)
    ensures Malloced(order + [x]) == Malloced(order) + if x == INITIAL then [] else [x]
  {
    if order != [] {
      MallocedAppend(order[1..], x);
      assert (order + [x])[1..] == order[1..] + [x];
    } else {
      assert order + [x] == [x];
    }
  }

  lemma NoDupConcat(s: seq<nat>, t: seq<nat>)
    requires NoDup(s) && NoDup(t) && forall x :: x in s ==> x !in t
    ensures NoDup(s + t)
  {
    forall i, j | 0 <= i < j < |s + t| ensures (s + t)[i] != (s + t)[j] {
      if i < |s| && |s| <= j {
        assert s[i] in s && t[j - |s|] in t;
      }
    }
  }

  lemma ResetKeeps(a: Arena)
    requires Inv(a)
    ensures Inv(ResetStep(a))
  {
    MallocedFilters(a.order);
    var m := Malloced(a.order);
    assert forall x :: x in m <==> x in a.blocks && x != INITIAL;
    NoDupConcat(a.freed, m);
  }

  predicate Sizes(ops: seq<Op>) {
    forall i :: 0 <= i < |ops| && ops[i].Alloc? ==> SizeT(ops[i].asked)
  }

  /** Any mix of small, growing, oversized and empty requests and resets keeps the arena well formed. */
  lemma {:induction false} RunKeeps(a: Arena, ops: seq<Op>)
    requires Inv(a) && Sizes(ops)
    ensures Inv(Run(a, ops))
    decreases |ops|
  {
    if ops != [] {
      match ops[0]
      case Alloc(n) => AllocateKeeps(a, n); RunKeeps(AllocateStep(a, n), ops[1..]);
      case DoReset => ResetKeeps(a); RunKeeps(ResetStep(a), ops[1..]);
    }
  }

  // ---- Main results ----

  /** Fresh regions: over any run the regions handed out since the last reset are pairwise disjoint, lie inside the
      usable part of their block at 16-byte offsets, and cover what was asked exactly if that is at most 2^32 - 16. */
  lemma RegionsAreFresh(ops: seq<Op>)
    requires Sizes(ops)
    ensures var a := Run(Empty, ops);
            && (forall k, l :: 0 <= k < l < |a.regions| ==> Disjoint(a.regions[k], a.regions[l]))
            && (forall k :: 0 <= k < |a.regions| ==>
                  var r := a.regions[k];
                  && r.offset % 16 == 0
                  && r.block in a.blocks && r.offset + r.size <= a.blocks[r.block].usable
                  && (r.size >= r.asked <==> r.asked <= TWO_32 - 16))
            && (forall x :: x in a.blocks ==> a.blocks[x].current <= a.blocks[x].usable)
  {
    RunKeeps(Empty, ops);
    var a := Run(Empty, ops);
    forall k | 0 <= k < |a.regions|
      ensures a.regions[k].size >= a.regions[k].asked <==> a.regions[k].asked <= TWO_32 - 16
    {
      assert RegionOk(a.regions[k]);
      RoundSizeCovers(a.regions[k].asked);
    }
  }

  /** The list stays acyclic and complete: it holds every live block once, the embedded buffer among them. */
  lemma ListHoldsEachBlockOnce(ops: seq<Op>)
    requires Sizes(ops)
    ensures var a := Run(Empty, ops);
            && NoDup(a.order) && INITIAL in a.order
            && (forall x :: 1 <= x < a.nextId ==> (x in a.order <==> x !in a.freed))
  {
    RunKeeps(Empty, ops);
  }

  /** After a run that ends in a reset every block ever malloc'd has been freed exactly once, the embedded buffer never,
      and the list is what the constructor made it. */
  lemma ResetFreesEachBlockOnce(ops: seq<Op>)
    requires Sizes(ops)
    ensures var a := ResetStep(Run(Empty, ops));
            && a.order == Empty.order && a.blocks == Empty.blocks && a.regions == Empty.regions
            && NoDup(a.freed)
            && (forall x :: x in a.freed <==> 1 <= x < a.nextId)
  {
    RunKeeps(Empty, ops);
    ResetKeeps(Run(Empty, ops));
  }

  // ---- The allocator object ----

  class BlockMeta {
    /** Which allocation this is, and how many bytes it has behind the header. */
    ghost const id: nat
    ghost const usable: nat
    var next: BlockMeta?
    var current: nat

    constructor (ghost id: nat, ghost usable: nat, next: BlockMeta?)
      ensures this.id == id && this.usable == usable && this.next == next && current == 0
    {
      this.id, this.usable := id, usable;
      this.next, this.current := next, 0;
    }
  }

  /** A pointer into a block, `offset` bytes behind its header. */
  datatype Pointer = Pointer(block: BlockMeta, offset: nat)

  /** The object follows the arena value step by step: `arena` is what the heap stands for. */
  class BumpPointerAllocator {
    const initialBuffer: BlockMeta
    var blockList: BlockMeta?
    ghost var arena: Arena
    /** The live blocks by identifier. */
    ghost var meta: map<nat, BlockMeta>
    ghost var repr: set<BlockMeta>

    /** The heap holds the arena's blocks, and the list runs through them in order and ends in null. */
    ghost predicate Shape()
      reads this, repr
    {
      && Shaped(arena)
      && (forall x :: x in arena.order ==> x in meta)
      && (forall x :: x in meta <==> x in arena.blocks)
      && (forall x :: x in meta ==> meta[x] in repr && Holds(meta[x], x, arena.blocks[x]))
      && blockList == meta[arena.order[0]]
      && (forall i: nat :: i < |arena.order| ==> LinkedAt(i))
      && INITIAL in meta && meta[INITIAL] == initialBuffer && initialBuffer.usable == USABLE
    }

    ghost predicate Valid()
      reads this, repr
    {
      Shape() && Inv(arena)
    }

    static ghost predicate Holds(b: BlockMeta, id: nat, v: Blk)
      reads b
    {
      b.id == id && b.usable == v.usable && b.current == v.current
    }

    /** The i-th block of the list points to the next one. */
    ghost predicate LinkedAt(i: nat)
      reads `arena, `meta, `repr, repr
    {
      && i < |arena.order| && arena.order[i] in meta && meta[arena.order[i]] in repr
      && meta[arena.order[i]].next ==
         if i + 1 < |arena.order| && arena.order[i + 1] in meta then meta[arena.order[i + 1]] else null
    }

    constructor ()
      ensures Valid() && fresh(repr) && arena == Empty
    {
      var b := new BlockMeta(INITIAL, USABLE, null);
      initialBuffer, blockList := b, b;
      arena, meta, repr := Empty, map[INITIAL := b], {b};
    }

    method Grow()
      requires Shape() && arena.nextId !in arena.blocks
      modifies this
      ensures Shape() && fresh(repr - old(repr)) && repr >= old(repr) && arena == GrowStep(old(arena))
    {
      ghost var id := arena.nextId;
      var newMeta := new BlockMeta(id, USABLE, blockList);
      blockList := newMeta;
      arena := GrowStep(arena);
      meta, repr := meta[id := newMeta], repr + {newMeta};
      forall i: nat | i < |arena.order| ensures LinkedAt(i) {
        assert i > 0 ==> old(LinkedAt(i - 1));
      }
    }

    method AllocateMassive(n: nat, ghost asked: nat) returns (p: Pointer)
      requires Shape() && arena.nextId !in arena.blocks && NoDup(arena.order)
      modifies this, repr
      ensures Shape() && fresh(repr - old(repr)) && repr >= old(repr)
      ensures arena == MassiveStep(old(arena), n, asked)
      ensures p == Pointer(meta[old(arena.nextId)], 0)
    {
      ghost var id := arena.nextId;
      assert LinkedAt(0);
      MassiveOrder(arena, id);
      var newMeta := new BlockMeta(id, n, blockList.next);
      blockList.next := newMeta;
      arena := MassiveStep(arena, n, asked);
      meta, repr := meta[id := newMeta], repr + {newMeta};
      forall i: nat | i < |arena.order| ensures LinkedAt(i) {
        assert i > 1 ==> arena.order[i] == old(arena.order)[i - 1] && old(LinkedAt(i - 1));
      }
      p := Pointer(newMeta, 0);
    }

    method Carve(n: nat, ghost asked: nat) returns (p: Pointer)
      requires Shape()
      modifies this, repr
      ensures Shape() && meta == old(meta) && repr == old(repr)
      ensures arena == CarveStep(old(arena), n, asked)
      ensures p == Pointer(meta[arena.order[0]], Head(old(arena)).current)
    {
      blockList.current := blockList.current + n;
      arena := CarveStep(arena, n, asked);
      forall i: nat | i < |arena.order| ensures LinkedAt(i) {
        assert old(LinkedAt(i));
      }
      p := Pointer(blockList, blockList.current - n);
    }

    /** Returns the region the arena records, whatever mix of requests came before. */
    method Allocate(asked: nat) returns (p: Pointer)
      requires Valid() && SizeT(asked)
      modifies this, repr
      ensures Valid() && fresh(repr - old(repr)) && repr >= old(repr)
      ensures arena == AllocateStep(old(arena), asked)
      ensures var r := arena.regions[|old(arena.regions)|];
              r.block in meta && p == Pointer(meta[r.block], r.offset)
    {
      AllocateKeeps(arena, asked);
      var n := RoundSize(asked);
      if n + blockList.current >= USABLE {
        if n > USABLE {
          p := AllocateMassive(n, asked);
          return;
        }
        Grow();
      }
      p := Carve(n, asked);
    }

    /** Walks the list, freeing every block but the embedded buffer; a freed block is never looked at again. */
    method FreeAll() returns (ghost freed: seq<nat>)
      requires Shape() && NoDup(arena.order)
      modifies `blockList
      ensures freed == Malloced(arena.order)
    {
      ghost var order := arena.order;
      ghost var k := 0;
      freed := [];
      while blockList != null
        invariant k <= |order|
        invariant blockList == if k < |order| then meta[order[k]] else null
        invariant freed == Malloced(order[..k])
        decreases |order| - k
      {
        assert LinkedAt(k) && meta[order[k]].id == order[k];
        var tmp := blockList;
        assert tmp.id !in freed by { MallocedFilters(order[..k]); }
        blockList := blockList.next;
        if tmp != initialBuffer {
          freed := freed + [tmp.id];
        }
        MallocedAppend(order[..k], order[k]);
        assert order[..k + 1] == order[..k] + [order[k]];
        k := k + 1;
      }
      assert order[..k] == order;
    }

    /** Places a fresh header in the embedded buffer. */
    method Restart(ghost freed: seq<nat>)
      requires initialBuffer in repr && initialBuffer.id == INITIAL && initialBuffer.usable == USABLE
      modifies this, initialBuffer
      ensures Shape() && repr == old(repr)
      ensures arena == Arena(Empty.order, Empty.blocks, old(arena).nextId, [], old(arena).freed + freed)
    {
      blockList := initialBuffer;
      initialBuffer.next, initialBuffer.current := null, 0;
      arena := Arena(Empty.order, Empty.blocks, arena.nextId, [], arena.freed + freed);
      meta := map[INITIAL := initialBuffer];
      assert LinkedAt(0);
    }

    /** Frees the list and starts over with the embedded buffer. */
    method Reset()
      requires Valid()
      modifies this, repr
      ensures Valid() && repr == old(repr)
      ensures arena == ResetStep(old(arena))
    {
      ResetKeeps(arena);
      ghost var freed := FreeAll();
      Restart(freed);
    }
  }
}
