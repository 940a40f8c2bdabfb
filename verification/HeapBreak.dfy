/** sbrk: the heap break, moved up over 32-bit addresses. */
module HeapBreak {

  import opened Words

  // (a + 3) & ~3 in 32 bits
  function Aligned(a: nat): nat { (a + 3) % WRAP / 4 * 4 }

  // A pointer moved by a signed offset.
  function Moved(a: nat, incr: int): nat { (a + incr) % WRAP }

  // A granted block, from its address to the break that followed it.
  datatype Block = Block(start: nat, end: nat)

  // The linker's symbols; the word at the limit is still in the address space.
  datatype Region = Region(start: nat, limit: nat)
  {
    ghost predicate Sane() { start <= limit <= WRAP - 4 }
  }

  datatype State = State(heapEnd: nat, blocks: seq<Block>)

  // One request: a block granted, or the alignment alone.
  function Request(h: Region, s: State, incr: int): State {
    var a := Aligned(s.heapEnd);
    if Moved(a, incr) > h.limit then State(a, s.blocks)
    else State(Moved(a, incr), s.blocks + [Block(a, Moved(a, incr))])
  }

  function Run(h: Region, requests: seq<int>): State {
    if requests == [] then State(h.start, [])
    else Request(h, Run(h, requests[..|requests| - 1]), requests[|requests| - 1])
  }

  // A signed 32-bit request.
  predicate IsInt(incr: int) { -SIGN_BIT <= incr < SIGN_BIT }

  predicate AreInts(requests: seq<int>) { forall i :: 0 <= i < |requests| ==> IsInt(requests[i]) }

  // The bytes from a to the next word boundary.
  function Pad(a: int): (p: nat)
    ensures p <= 3 && (a + p) % 4 == 0
  {
    (0 - a) % 4
  }

  function Break(s: State): nat { s.heapEnd + Pad(s.heapEnd) }

  // The break stays where it can be aligned, whatever is asked for.
  lemma AlignedIs(h: Region, a: nat)
    requires h.Sane() && a <= (h.limit + 3) / 4 * 4
    ensures Aligned(a) == a + Pad(a) && a + Pad(a) <= (h.limit + 3) / 4 * 4 <= WRAP - 4
  {
  }

  lemma MovedIs(a: nat, incr: int)
    requires a < WRAP && IsInt(incr)
    ensures Moved(a, incr) == if a + incr < 0 then a + incr + WRAP else if a + incr < WRAP then a + incr else a + incr - WRAP
  {
  }

  lemma {:induction false} BreakInReach(h: Region, requests: seq<int>)
    requires h.Sane()
    ensures Run(h, requests).heapEnd <= (h.limit + 3) / 4 * 4
  {
    if requests != [] {
      var front := requests[..|requests| - 1];
      BreakInReach(h, front);
      AlignedIs(h, Run(h, front).heapEnd);
      hide Aligned, Moved, Pad;
    }
  }

  // ---------------------------------------------------------------- when a request is granted

  /** After any requests, one is granted if and only if the break, moved in 32 bits from its word boundary, is not above the
      limit: it fits, or gives memory back, or the address wraps, upwards or downwards, to one below the limit. It takes the
      block between the two; one that is refused loses at most three bytes to the alignment. */
  lemma GrantedIff(h: Region, requests: seq<int>, incr: int)
    requires h.Sane() && IsInt(incr)
    ensures var s := Run(h, requests);
            var a := Break(s);
            Request(h, s, incr)
            == if 0 <= a + incr <= h.limit then State(a + incr, s.blocks + [Block(a, a + incr)])
               else if WRAP <= a + incr <= WRAP + h.limit then State(a + incr - WRAP, s.blocks + [Block(a, a + incr - WRAP)])
               else if a + incr < 0 && a + incr + WRAP <= h.limit then
                 State(a + incr + WRAP, s.blocks + [Block(a, a + incr + WRAP)])
               else State(a, s.blocks)
  {
    hide Run;
    BreakInReach(h, requests);
    Granting(h, Run(h, requests), incr);
  }

  lemma Granting(h: Region, s: State, incr: int)
    requires h.Sane() && s.heapEnd <= (h.limit + 3) / 4 * 4 && IsInt(incr)
    ensures var a := Break(s);
            Request(h, s, incr)
            == if 0 <= a + incr <= h.limit then State(a + incr, s.blocks + [Block(a, a + incr)])
               else if WRAP <= a + incr <= WRAP + h.limit then State(a + incr - WRAP, s.blocks + [Block(a, a + incr - WRAP)])
               else if a + incr < 0 && a + incr + WRAP <= h.limit then
                 State(a + incr + WRAP, s.blocks + [Block(a, a + incr + WRAP)])
               else State(a, s.blocks)
  {
    AlignedIs(h, s.heapEnd);
    MovedIs(Break(s), incr);
    hide Aligned, Moved, Pad;
  }

  // The bytes of the blocks granted.
  function Granted(blocks: seq<Block>): int {
    if blocks == [] then 0 else Granted(blocks[..|blocks| - 1]) + Size(blocks[|blocks| - 1])
  }

  function Size(b: Block): int { b.end - b.start }

  /** Conservation: after any requests, the break has moved by the bytes granted, less those given back, and by less than a
      word for each request. */
  lemma {:induction false} BreakMovesByGrants(h: Region, requests: seq<int>)
    requires h.Sane()
    ensures var s := Run(h, requests);
            0 <= s.heapEnd - h.start - Granted(s.blocks) <= 3 * |requests|
  {
    if requests != [] {
      var front, incr := requests[..|requests| - 1], requests[|requests| - 1];
      BreakMovesByGrants(h, front);
      BreakInReach(h, front);
      var s := Run(h, front);
      AlignedIs(h, s.heapEnd);
      var b := Block(Aligned(s.heapEnd), Moved(Aligned(s.heapEnd), incr));
      assert (s.blocks + [b])[..|s.blocks|] == s.blocks;
      hide Aligned, Moved, Pad;
    }
  }

  // ---------------------------------------------------------------- when blocks are disjoint

  // Every block lies in the heap, below the break, on a word boundary and above the ones before.
  ghost predicate Inv(h: Region, s: State) {
    && h.start <= s.heapEnd <= (h.limit + 3) / 4 * 4
    && (forall i :: 0 <= i < |s.blocks| ==>
          h.start <= s.blocks[i].start <= s.blocks[i].end <= s.heapEnd && s.blocks[i].end <= h.limit
          && s.blocks[i].start % 4 == 0)
    && (forall i, j :: 0 <= i < j < |s.blocks| ==> s.blocks[i].end <= s.blocks[j].start)
  }

  // What a request must be for that to stay so: refused, or not negative and not wrapping, or wrapping downwards.
  predicate KeepsOrder(h: Region, s: State, incr: int) {
    var a := Break(s);
    (0 <= incr && a + incr < WRAP) || a + incr < 0 || Moved(a, incr) > h.limit
  }

  /** A request keeps the blocks in order if and only if it is refused, or grows the heap without wrapping an address, or is so
      negative that the address wraps downwards: what breaks the order is giving memory back, and wrapping upwards. */
  lemma RequestKeepsOrderIff(h: Region, s: State, incr: int)
    requires h.Sane() && Inv(h, s) && IsInt(incr)
    ensures Inv(h, Request(h, s, incr)) <==> KeepsOrder(h, s, incr)
  {
    AlignedIs(h, s.heapEnd);
    MovedIs(Break(s), incr);
    var t, b := Request(h, s, incr), Block(Break(s), Moved(Break(s), incr));
    assert Break(s) % 4 == 0;
    hide Aligned, Moved, Pad;
    if Moved(Break(s), incr) <= h.limit {
      assert t.blocks[|s.blocks|] == b;
      assert forall i :: 0 <= i < |s.blocks| ==> t.blocks[i] == s.blocks[i];
    }
  }

  predicate Orderly(h: Region, requests: seq<int>) {
    requests == [] ||
    var front := requests[..|requests| - 1];
    Orderly(h, front) && KeepsOrder(h, Run(h, front), requests[|requests| - 1])
  }

  lemma {:induction false} OrderlyKeepsInv(h: Region, requests: seq<int>)
    requires h.Sane() && AreInts(requests) && Orderly(h, requests)
    ensures Inv(h, Run(h, requests))
  {
    if requests != [] {
      var front := requests[..|requests| - 1];
      OrderlyKeepsInv(h, front);
      assert IsInt(requests[|requests| - 1]);
      hide Inv, KeepsOrder, Request;
      RequestKeepsOrderIff(h, Run(h, front), requests[|requests| - 1]);
    }
  }

  /** Over any sequence of requests of which each keeps the order: the blocks granted are word-aligned, inside the heap, and no
      two of them overlap. */
  lemma BlocksAreDisjoint(h: Region, requests: seq<int>)
    requires h.Sane() && AreInts(requests) && Orderly(h, requests)
    ensures var bs := Run(h, requests).blocks;
      && (forall i :: 0 <= i < |bs| ==> h.start <= bs[i].start <= bs[i].end <= h.limit && bs[i].start % 4 == 0)
      && (forall i, j :: 0 <= i < j < |bs| ==> bs[i].end <= bs[j].start)
  {
    OrderlyKeepsInv(h, requests);
  }

  /** In a heap that ends in the lower half of the address space, every request that gives no memory back keeps the order. */
  lemma {:induction false} LowHeapIsOrderly(h: Region, requests: seq<int>)
    requires h.start <= h.limit < SIGN_BIT
    requires forall i :: 0 <= i < |requests| ==> 0 <= requests[i] < SIGN_BIT
    ensures Orderly(h, requests)
  {
    if requests != [] {
      var front := requests[..|requests| - 1];
      LowHeapIsOrderly(h, front);
      BreakInReach(h, front);
      hide Run, KeepsOrder;
      LowHeapKeepsOrder(h, Run(h, front), requests[|requests| - 1]);
    }
  }

  lemma LowHeapKeepsOrder(h: Region, s: State, incr: int)
    requires h.start <= h.limit < SIGN_BIT && s.heapEnd <= (h.limit + 3) / 4 * 4 && 0 <= incr < SIGN_BIT
    ensures KeepsOrder(h, s, incr)
  {
    AlignedIs(h, s.heapEnd);
    hide Pad, Moved, Aligned;
  }

  // ---------------------------------------------------------------- giving memory back

  predicate Overlap(b: Block, c: Block) { b.start < c.end && c.start < b.end }

  // Some request that fits is granted a block that overlaps b.
  ghost predicate CanOverlap(h: Region, t: State, b: Block) {
    exists incr :: 0 <= incr < SIGN_BIT && Break(t) + incr <= h.limit && Overlapping(h, t, incr, b)
  }

  ghost predicate Overlapping(h: Region, t: State, incr: int, b: Block) {
    var u := Request(h, t, incr);
    |u.blocks| == |t.blocks| + 1 && Overlap(u.blocks[|t.blocks|], b)
  }

  /** After any requests, one that gives memory back and takes the break to e exposes a block granted before, so that some later
      request is granted bytes of it, if and only if the word boundary from e is below the block's end, and the block starts
      below the limit and within reach of one request. */
  lemma ShrinkingOverlaps(h: Region, requests: seq<int>, k: int, i: nat)
    requires h.Sane() && IsInt(k) && i < |Run(h, requests).blocks|
    requires k < 0 <= Break(Run(h, requests)) + k <= h.limit
    ensures var s := Run(h, requests);
            var t, b := Request(h, s, k), s.blocks[i];
      && t.heapEnd == Break(s) + k
      && (CanOverlap(h, t, b) <==>
            Break(t) < b.end && b.start < h.limit && b.start < Break(t) + SIGN_BIT - 1)
  {
    var s := Run(h, requests);
    var b := s.blocks[i];
    hide Run, Pad, Aligned, Moved;
    BreakInReach(h, requests);
    Granting(h, s, k);
    var t := Request(h, s, k);
    hide Request;
    var most := Min(h.limit - Break(t), SIGN_BIT - 1);
    if CanOverlap(h, t, b) {
      var incr :| 0 <= incr < SIGN_BIT && Break(t) + incr <= h.limit && Overlapping(h, t, incr, b);
      Granting(h, t, incr);
    }
    if Break(t) < b.end && b.start < h.limit && b.start < Break(t) + SIGN_BIT - 1 && 0 <= most {
      Granting(h, t, most);
      assert Overlapping(h, t, most, b);
    }
    BlocksEndBelow(h, requests, i);
  }

  // Whatever was asked for, no block ends above the limit.
  lemma {:induction false} BlocksEndBelow(h: Region, requests: seq<int>, i: nat)
    requires i < |Run(h, requests).blocks|
    ensures Run(h, requests).blocks[i].end <= h.limit
  {
    if requests != [] {
      var front := requests[..|requests| - 1];
      if i < |Run(h, front).blocks| { BlocksEndBelow(h, front, i); }
      hide Aligned, Moved;
    }
  }

  /** It happens: of the blocks for 8 bytes, 8 bytes given back, and 4 bytes, the last lies in the first. */
  lemma OverlapHappens()
    ensures var bs := Run(Region(0, 100), [8, -8, 4]).blocks;
      bs == [Block(0, 8), Block(8, 0), Block(0, 4)] && Overlap(bs[0], bs[2])
  {
    var h := Region(0, 100);
    RunStep(h, [], 8);
    RunStep(h, [8], -8);
    RunStep(h, [8, -8], 4);
    assert [] + [8] == [8] && [8] + [-8] == [8, -8] && [8, -8] + [4] == [8, -8, 4];
    assert Run(h, []) == State(0, []);
    hide Run, Request;
    OneRequest(State(0, []), 8);
    OneRequest(State(8, [Block(0, 8)]), -8);
    OneRequest(State(0, [Block(0, 8), Block(8, 0)]), 4);
    assert [Block(0, 8), Block(8, 0)] + [Block(0, 4)] == [Block(0, 8), Block(8, 0), Block(0, 4)];
  }

  lemma OneRequest(s: State, incr: int)
    requires s.heapEnd % 4 == 0 && s.heapEnd <= 8 && 0 <= s.heapEnd + incr <= 8
    ensures Request(Region(0, 100), s, incr) == State(s.heapEnd + incr, s.blocks + [Block(s.heapEnd, s.heapEnd + incr)])
  {
  }

  class Heap {
    const region: Region
    var heapEnd: nat          // heap_end
    ghost var requests: seq<int>

    ghost predicate Valid()
      reads this
    {
      heapEnd == Run(region, requests).heapEnd
    }

    constructor (start: nat, limit: nat)
      ensures Valid() && region == Region(start, limit) && requests == []
    {
      region, heapEnd, requests := Region(start, limit), start, [];
    }

    /** ALT_SBRK: the address of the block, or -1. */
    method Sbrk(incr: int) returns (r: int)
      requires Valid()
      modifies this
      ensures Valid() && requests == old(requests) + [incr]
      ensures var before, after := Run(region, old(requests)).blocks, Run(region, requests).blocks;
              if r == -1 then after == before else r >= 0 && after == before + [Block(r, heapEnd)]
      ensures r >= 0 ==> heapEnd == Moved(r, incr) && heapEnd <= region.limit
    {
      requests := requests + [incr];
      RunStep(region, old(requests), incr);
      hide Run, Aligned, Moved;
      heapEnd := Aligned(heapEnd);
      if Moved(heapEnd, incr) > region.limit {
        return -1;
      }
      var prevHeapEnd := heapEnd;
      heapEnd := Moved(heapEnd, incr);
      r := prevHeapEnd;
    }
  }

  lemma RunStep(h: Region, requests: seq<int>, incr: int)
    ensures Run(h, requests + [incr]) == Request(h, Run(h, requests), incr)
  {
    assert (requests + [incr])[..|requests|] == requests;
  }
}
