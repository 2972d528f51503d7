/** The arena allocator (util/arena.h, util/arena.cpp).  Addresses are numbers; what `new[]` returned for a block is an
    argument of the call that asks for it. */
module Arenas {
  const BLOCK_SIZE: nat := 4096
  const ADDRESS_SIZE: nat := 8
  const ALIGN: nat := 8
  const SIZE_T: nat := 0x1_0000_0000_0000_0000

  /** The bytes from `start` on. */
  datatype Range = Range(start: nat, len: nat) {
    function End(): nat { start + len }
  }

  /** No byte in common. */
  predicate Apart(r: Range, s: Range) {
    r.len == 0 || s.len == 0 || r.End() <= s.start || s.End() <= r.start
  }

  predicate Inside(r: Range, s: Range) {
    r.len == 0 || (s.start <= r.start && r.End() <= s.End())
  }

  ghost predicate PairwiseApart(rs: seq<Range>) {
    forall i, j :: 0 <= i < j < |rs| ==> Apart(rs[i], rs[j])
  }

  ghost predicate AllApart(rs: seq<Range>, r: Range) {
    forall i :: 0 <= i < |rs| ==> Apart(rs[i], r)
  }

  /** Each range lies in one block. */
  ghost predicate Housed(rs: seq<Range>, blocks: seq<Range>) {
    forall i :: 0 <= i < |rs| ==> HousedIn(rs[i], blocks)
  }

  ghost predicate HousedIn(r: Range, blocks: seq<Range>) {
    r.len == 0 || exists b :: 0 <= b < |blocks| && Inside(r, blocks[b])
  }

  function Total(rs: seq<Range>): nat {
    if rs == [] then 0 else rs[|rs| - 1].len + Total(rs[..|rs| - 1])
  }

  /** A block that `new[]` may return: aligned, in memory, and sharing no byte with the blocks in use. */
  ghost predicate FreshBlock(blocks: seq<Range>, b: Range) {
    b.start > 0 && Aligned(b.start) && b.End() <= SIZE_T && AllApart(blocks, b)
  }

  /** What a range inside one of the blocks, or inside a new one, keeps clear of. */
  lemma HousedApart(rs: seq<Range>, blocks: seq<Range>, b: Range)
    requires Housed(rs, blocks) && AllApart(blocks, b)
    ensures AllApart(rs, b)
  {
    forall i | 0 <= i < |rs|
      ensures Apart(rs[i], b)
    {
      assert HousedIn(rs[i], blocks);
      if rs[i].len > 0 {
        var k :| 0 <= k < |blocks| && Inside(rs[i], blocks[k]);
        assert Apart(blocks[k], b);
      }
    }
  }

  lemma HousedStill(r: Range, blocks: seq<Range>, b: Range)
    requires HousedIn(r, blocks)
    ensures HousedIn(r, blocks + [b])
  {
    if r.len > 0 {
      var k :| 0 <= k < |blocks| && Inside(r, blocks[k]);
      assert (blocks + [b])[k] == blocks[k];
    }
  }

  lemma AllHousedStill(rs: seq<Range>, blocks: seq<Range>, b: Range)
    requires Housed(rs, blocks)
    ensures Housed(rs, blocks + [b])
  {
    forall i | 0 <= i < |rs|
      ensures HousedIn(rs[i], blocks + [b])
    {
      HousedStill(rs[i], blocks, b);
    }
  }

  lemma TotalAppend(rs: seq<Range>, r: Range)
    ensures Total(rs + [r]) == Total(rs) + r.len
  {
    assert (rs + [r])[..|rs|] == rs;
  }

  // ----- Alignment

  predicate Aligned(address: nat) {
    address % ALIGN == 0
  }

  /** `ptr & (align - 1)`, and the bytes to the next multiple of `align`. */
  function Padding(ptr: nat): (p: nat)
    ensures p < ALIGN && Aligned(ptr + p)
  {
    var misalign := ptr % ALIGN;
    if misalign != 0 then ALIGN - misalign else 0
  }

  /** A tail too small for an aligned request of at most a quarter block is itself under a quarter block, though the
      padding counts against it: what is left of a block and the padding agree modulo the alignment. */
  lemma TailIsSmall(ptr: nat, remaining: nat, bytes: nat)
    requires Aligned(ptr + remaining) && bytes <= BLOCK_SIZE / 4 && bytes + Padding(ptr) > remaining
    ensures remaining < BLOCK_SIZE / 4
  {
    var p := Padding(ptr);
    if remaining >= p {
      assert ptr + remaining == (ptr + p) + (remaining - p);
      assert (remaining - p) % 8 == 0;
    }
  }

  /** The size test of `AllocateAligned`, in `size_t` arithmetic. */
  predicate AlignedFits(bytes: nat, padding: nat, remaining: nat) {
    (bytes + padding) % SIZE_T <= remaining
  }

  /** The test agrees with the exact one unless the sum with the padding wraps to one the free tail could serve. */
  lemma AlignedFitsIff(bytes: nat, padding: nat, remaining: nat)
    requires bytes < SIZE_T && padding < ALIGN && remaining <= BLOCK_SIZE
    ensures (AlignedFits(bytes, padding, remaining) <==> bytes + padding <= remaining) <==>
            bytes + padding < SIZE_T || bytes + padding - SIZE_T > remaining
  {
    if bytes + padding >= SIZE_T {
      assert (bytes + padding) % SIZE_T == bytes + padding - SIZE_T;
    }
  }

  lemma NoPaddingFits(bytes: nat, remaining: nat)
    requires bytes <= remaining <= BLOCK_SIZE
    ensures AlignedFits(bytes, 0, remaining) && (bytes + 0) % SIZE_T == bytes && bytes + 0 < SIZE_T
  {
  }

  // ----- What holds between calls

  ghost predicate BlocksOk(blocks: seq<Range>, memoryUsage: nat) {
    PairwiseApart(blocks) && (forall i :: 0 <= i < |blocks| ==> Aligned(blocks[i].start)) &&
    memoryUsage == Total(blocks) + ADDRESS_SIZE * |blocks|
  }

  /** The free tail lies in a block and runs to its aligned end. */
  ghost predicate TailOk(tail: Range, blocks: seq<Range>) {
    tail.len <= BLOCK_SIZE && Aligned(tail.End()) && HousedIn(tail, blocks)
  }

  /** The ranges handed out share no byte with each other or with the free tail, and each lies in one block. */
  ghost predicate GivenOk(given: seq<Range>, tail: Range, blocks: seq<Range>) {
    PairwiseApart(given) && AllApart(given, tail) && Housed(given, blocks)
  }

  /** Every byte of every block is handed out, padding, left behind, or free; what is left behind is small. */
  ghost predicate Accounted(blocks: seq<Range>, given: seq<Range>, padded: nat, abandoned: seq<Range>, remaining: nat) {
    Total(blocks) == Total(given) + padded + Total(abandoned) + remaining &&
    forall i :: 0 <= i < |abandoned| ==> abandoned[i].len < BLOCK_SIZE / 4
  }

  // ----- Taking from the front of the free tail

  lemma NothingYet()
    ensures BlocksOk([], 0) && TailOk(Range(0, 0), []) && GivenOk([], Range(0, 0), []) && Accounted([], [], 0, [], 0)
  {
    assert Total([]) == 0;
  }

  /** What taking `step` bytes off the tail does, with or without a range among them. */
  lemma Taken(given: seq<Range>, blocks: seq<Range>, padded: nat, abandoned: seq<Range>, tail: Range, step: nat, padding: nat)
    requires TailOk(tail, blocks) && GivenOk(given, tail, blocks) && Accounted(blocks, given, padded, abandoned, tail.len)
    requires step <= tail.len
    ensures var rest := Range(tail.start + step, tail.len - step);
            TailOk(rest, blocks) && GivenOk(given, rest, blocks) &&
            Accounted(blocks, given, padded + step, abandoned, rest.len)
    ensures padding <= step ==>
              var r, rest := Range(tail.start + padding, step - padding), Range(tail.start + step, tail.len - step);
              GivenOk(given + [r], rest, blocks) &&
              Accounted(blocks, given + [r], padded + padding, abandoned, rest.len)
  {
    hide PairwiseApart, AllApart, Housed, HousedIn, Aligned;
    var rest := Range(tail.start + step, tail.len - step);
    assert rest.End() == tail.End();
    TailShrinks(given, blocks, tail, rest);
    if padding <= step {
      var r := Range(tail.start + padding, step - padding);
      TailShrinks(given, blocks, tail, r);
      OneMore(given, blocks, r);
      OneMoreApart(given, r, rest);
    }
  }

  lemma TailShrinks(given: seq<Range>, blocks: seq<Range>, tail: Range, r: Range)
    requires AllApart(given, tail) && HousedIn(tail, blocks) && tail.start <= r.start && r.End() <= tail.End()
    ensures AllApart(given, r) && HousedIn(r, blocks)
  {
    forall i | 0 <= i < |given|
      ensures Apart(given[i], r)
    {
      assert Apart(given[i], tail);
    }
    if r.len > 0 {
      var b :| 0 <= b < |blocks| && Inside(tail, blocks[b]);
      assert Inside(r, blocks[b]);
    }
  }

  lemma OneMore(given: seq<Range>, blocks: seq<Range>, r: Range)
    requires PairwiseApart(given) && AllApart(given, r) && Housed(given, blocks) && HousedIn(r, blocks)
    ensures PairwiseApart(given + [r]) && Housed(given + [r], blocks) && Total(given + [r]) == Total(given) + r.len
  {
    TotalAppend(given, r);
  }

  lemma OneMoreApart(given: seq<Range>, r: Range, tail: Range)
    requires AllApart(given, tail) && Apart(r, tail)
    ensures AllApart(given + [r], tail)
  {
  }

  /** A new block keeps clear of everything in the old ones. */
  lemma LargeFacts(given: seq<Range>, blocks: seq<Range>, tail: Range, b: Range)
    requires Housed(given, blocks) && HousedIn(tail, blocks) && FreshBlock(blocks, b)
    ensures AllApart(given, b) && Apart(b, tail) && Housed(given, blocks + [b]) && HousedIn(tail, blocks + [b])
    ensures HousedIn(b, blocks + [b]) && Total(blocks + [b]) == Total(blocks) + b.len
  {
    HousedApart(given, blocks, b);
    HousedApart([tail], blocks, b);
    assert Apart([tail][0], b);
    AllHousedStill(given, blocks, b);
    HousedStill(tail, blocks, b);
    assert Inside(b, (blocks + [b])[|blocks|]);
    TotalAppend(blocks, b);
  }

  /** A request with a block of its own. */
  lemma OwnBlock(given: seq<Range>, blocks: seq<Range>, padded: nat, abandoned: seq<Range>, tail: Range, b: Range)
    requires TailOk(tail, blocks) && GivenOk(given, tail, blocks) && Accounted(blocks, given, padded, abandoned, tail.len)
    requires FreshBlock(blocks, b)
    ensures TailOk(tail, blocks + [b]) && GivenOk(given + [b], tail, blocks + [b])
    ensures Accounted(blocks + [b], given + [b], padded, abandoned, tail.len)
  {
    hide PairwiseApart, AllApart, Housed, HousedIn, Aligned;
    LargeFacts(given, blocks, tail, b);
    OneMore(given, blocks + [b], b);
    OneMoreApart(given, b, tail);
  }

  /** A new standard block, in place of the old tail. */
  lemma LeftBehind(given: seq<Range>, blocks: seq<Range>, padded: nat, abandoned: seq<Range>, tail: Range, b: Range)
    requires TailOk(tail, blocks) && GivenOk(given, tail, blocks) && Accounted(blocks, given, padded, abandoned, tail.len)
    requires FreshBlock(blocks, b) && b.len == BLOCK_SIZE && tail.len < BLOCK_SIZE / 4
    ensures TailOk(b, blocks + [b]) && GivenOk(given, b, blocks + [b])
    ensures Accounted(blocks + [b], given, padded, abandoned + [tail], b.len)
  {
    hide PairwiseApart, AllApart, Housed, HousedIn;
    LargeFacts(given, blocks, tail, b);
    TotalAppend(abandoned, tail);
    FreshEnd(blocks, b);
  }

  lemma FreshEnd(blocks: seq<Range>, b: Range)
    requires FreshBlock(blocks, b) && b.len == BLOCK_SIZE
    ensures Aligned(b.End())
  {
  }

  class Arena {
    var allocPtr: nat
    var remaining: nat
    var blocks: seq<Range>
    var memoryUsage: nat
    ghost var given: seq<Range>      // every range handed out, in order
    ghost var padded: nat            // bytes skipped for alignment
    ghost var abandoned: seq<Range>  // the tails of standard blocks left behind

    ghost function Tail(): Range
      reads this
    {
      Range(allocPtr, remaining)
    }

    /** Blocks are apart and aligned, and the usage is theirs plus a pointer each; the rest is as the predicates say. */
    ghost predicate Valid()
      reads this
    {
      BlocksOk(blocks, memoryUsage) && TailOk(Tail(), blocks) && GivenOk(given, Tail(), blocks) &&
      Accounted(blocks, given, padded, abandoned, remaining)
    }

    constructor ()
      ensures Valid() && given == [] && blocks == [] && memoryUsage == 0 && remaining == 0
    {
      NothingYet();
      hide TailOk, GivenOk, Accounted, BlocksOk;
      allocPtr, remaining, blocks, memoryUsage := 0, 0, [], 0;
      given, padded, abandoned := [], 0, [];
    }

    /** The bytes of the new block a request needs, or 0 if the free tail serves it. */
    ghost function BlockFor(bytes: nat, fits: bool): nat {
      if fits then 0 else if bytes > BLOCK_SIZE / 4 then bytes else BLOCK_SIZE
    }

    /** `AllocateNewBlock`, of a block that `new[]` placed at `base`. */
    method AllocateNewBlock(size: nat, base: nat) returns (result: nat)
      requires BlocksOk(blocks, memoryUsage) && FreshBlock(blocks, Range(base, size))
      modifies `blocks, `memoryUsage
      ensures BlocksOk(blocks, memoryUsage) && result == base && blocks == old(blocks) + [Range(base, size)]
    {
      result := base;
      TotalAppend(blocks, Range(base, size));
      blocks := blocks + [Range(base, size)];
      memoryUsage := memoryUsage + size + ADDRESS_SIZE;
    }

    /** Moves the pointer by `step` bytes, which hold padding and the range handed out, or padding alone. */
    method Advance(step: nat, padding: nat, ghost bytes: nat, ghost fits: bool) returns (result: nat)
      requires Valid() && step <= remaining && (fits ==> step == padding + bytes)
      modifies `allocPtr, `remaining, `given, `padded
      ensures Valid() && result == old(allocPtr) + padding
      ensures remaining == old(remaining) - step && allocPtr == old(allocPtr) + step
      ensures given == old(given) + if fits then [Range(result, bytes)] else []
    {
      hide TailOk, GivenOk, Accounted, BlocksOk;
      result := allocPtr + padding;
      Taken(given, blocks, padded, abandoned, Tail(), step, padding);
      if fits {
        given := given + [Range(result, bytes)];
      }
      allocPtr := allocPtr + step;
      remaining := remaining - step;
      padded := padded + if fits then padding else step;
    }

    /** Bumps the pointer past padding and the range handed out.  A request whose sum with the padding wraps around
        `size_t` moves the pointer by the wrapped sum only, and no range is recorded for it. */
    method Bump(padding: nat, bytes: nat) returns (result: nat)
      requires Valid() && padding < ALIGN && bytes < SIZE_T && AlignedFits(bytes, padding, remaining)
      modifies `allocPtr, `remaining, `given, `padded
      ensures Valid() && result == old(allocPtr) + padding
      ensures given == old(given) + if bytes + padding < SIZE_T then [Range(result, bytes)] else []
      ensures remaining == old(remaining) - (bytes + padding) % SIZE_T && allocPtr == old(allocPtr) + (bytes + padding) % SIZE_T
    {
      hide Valid;
      result := Advance((bytes + padding) % SIZE_T, padding, bytes, bytes + padding < SIZE_T);
    }

    /** A large request gets a block of its own; the free tail stays. */
    method AllocateLarge(bytes: nat, base: nat) returns (result: nat)
      requires Valid() && FreshBlock(blocks, Range(base, bytes))
      modifies this
      ensures Valid() && result == base && given == old(given) + [Range(result, bytes)]
      ensures blocks == old(blocks) + [Range(base, bytes)] && abandoned == old(abandoned) && padded == old(padded)
      ensures allocPtr == old(allocPtr) && remaining == old(remaining)
    {
      hide BlocksOk, TailOk, GivenOk, Accounted;
      ghost var r := Range(base, bytes);
      OwnBlock(given, blocks, padded, abandoned, Tail(), r);
      result := AllocateNewBlock(bytes, base);
      given := given + [r];
    }

    /** The free tail is left behind for a new standard block. */
    method StartBlock(base: nat)
      requires Valid() && remaining < BLOCK_SIZE / 4 && FreshBlock(blocks, Range(base, BLOCK_SIZE))
      modifies this
      ensures Valid() && given == old(given) && padded == old(padded) && blocks == old(blocks) + [Range(base, BLOCK_SIZE)]
      ensures allocPtr == base && remaining == BLOCK_SIZE && abandoned == old(abandoned) + [old(Tail())]
    {
      hide BlocksOk, TailOk, GivenOk, Accounted, FreshBlock;
      LeftBehind(given, blocks, padded, abandoned, Tail(), Range(base, BLOCK_SIZE));
      abandoned := abandoned + [Tail()];
      allocPtr := AllocateNewBlock(BLOCK_SIZE, base);
      remaining := BLOCK_SIZE;
    }

    method AllocateFallback(bytes: nat, base: nat) returns (result: nat)
      requires Valid() && FreshBlock(blocks, Range(base, BlockFor(bytes, false)))
      requires bytes <= BLOCK_SIZE / 4 ==> remaining < BLOCK_SIZE / 4
      modifies this
      ensures Valid() && result == base && given == old(given) + [Range(result, bytes)] && Aligned(result)
      ensures blocks == old(blocks) + [Range(base, BlockFor(bytes, false))]
      ensures abandoned == old(abandoned) + if bytes > BLOCK_SIZE / 4 then [] else [old(Tail())]
      ensures bytes <= BLOCK_SIZE / 4 ==> allocPtr == base + bytes && remaining == BLOCK_SIZE - bytes
    {
      hide Valid;
      if bytes > BLOCK_SIZE / 4 {
        result := AllocateLarge(bytes, base);
        return;
      }
      StartBlock(base);
      result := Bump(0, bytes);
    }

    lemma TailIsShort()
      requires Valid()
      ensures remaining <= BLOCK_SIZE
    {
    }

    /** `Allocate`: the range handed out shares no byte with any handed out before, and lies in one block. */
    method Allocate(bytes: nat, base: nat) returns (result: nat)
      requires Valid() && bytes > 0
      requires bytes > remaining ==> FreshBlock(blocks, Range(base, BlockFor(bytes, false)))
      modifies this
      ensures Valid() && given == old(given) + [Range(result, bytes)]
      ensures result == if bytes <= old(remaining) then old(allocPtr) else base
      ensures blocks == old(blocks) + if bytes <= old(remaining) then [] else [Range(base, BlockFor(bytes, false))]
      ensures old(remaining) < bytes <= BLOCK_SIZE / 4 ==> allocPtr == base + bytes && remaining == BLOCK_SIZE - bytes
    {
      hide Valid, FreshBlock, AlignedFits, Aligned;
      TailIsShort();
      if bytes <= remaining {
        NoPaddingFits(bytes, remaining);
        result := Bump(0, bytes);
        return;
      }
      result := AllocateFallback(bytes, base);
    }

    /** `AllocateAligned`.  A request that fits `size_t` together with its padding gets an aligned range of its own; one
        that wraps past the end of `size_t` moves the pointer by the wrapped sum only. */
    method AllocateAligned(bytes: nat, base: nat) returns (result: nat)
      requires Valid() && bytes < SIZE_T
      requires !AlignedFits(bytes, Padding(allocPtr), remaining) ==> FreshBlock(blocks, Range(base, BlockFor(bytes, false)))
      modifies this
      ensures Valid() && Aligned(result)
      ensures bytes + Padding(old(allocPtr)) < SIZE_T ==> given == old(given) + [Range(result, bytes)]
      ensures bytes + Padding(old(allocPtr)) >= SIZE_T && AlignedFits(bytes, Padding(old(allocPtr)), old(remaining)) ==>
                given == old(given) && result == old(allocPtr) + Padding(old(allocPtr)) && blocks == old(blocks) &&
                Range(result, bytes).End() >= SIZE_T
    {
      var padding := Padding(allocPtr);
      AlignedFitsIff(bytes, padding, remaining);
      if !AlignedFits(bytes, padding, remaining) {
        if bytes <= BLOCK_SIZE / 4 {
          TailIsSmall(allocPtr, remaining, bytes);
        }
        result := AllocateFallback(bytes, base);
        return;
      }
      result := Bump(padding, bytes);
    }
  }

  /** A request that wraps: after one byte, a request for all but two bytes of the address space is taken for one of
      four bytes.  It comes back with the eighth byte of the block, as the start of a range that runs past the end of the
      address space and lies in no block. */
  method WrappingRequest(base: nat) returns (arena: Arena, result: nat)
    requires FreshBlock([], Range(base, BLOCK_SIZE))
    ensures arena.blocks == [Range(base, BLOCK_SIZE)] && arena.given == [Range(base, 1)] && result == base + 8
    ensures Range(result, SIZE_T - 3).End() > SIZE_T && !HousedIn(Range(result, SIZE_T - 3), arena.blocks)
  {
    hide Arena.Valid, FreshBlock, HousedIn, Padding, AlignedFits, Aligned;
    Wraps(base);
    arena := new Arena();
    var first := arena.Allocate(1, base);
    result := arena.AllocateAligned(SIZE_T - 3, base);
  }

  lemma Wraps(base: nat)
    requires FreshBlock([], Range(base, BLOCK_SIZE))
    ensures Padding(base + 1) == 7 && AlignedFits(SIZE_T - 3, 7, BLOCK_SIZE - 1)
    ensures !HousedIn(Range(base + 8, SIZE_T - 3), [Range(base, BLOCK_SIZE)])
  {
    assert (base + 1) % 8 == 1;
  }
}
