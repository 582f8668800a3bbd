/** Programming the K9S1208 NAND flash: pages go to the blocks from the target block upward;
    blocks that are bad, or turn out bad, are skipped and their pages written again further up. */
module NandFlash {
  import opened Common

  const PAGE: nat := 512
  const PAGES_PER_BLOCK: nat := 32

  type Page = p: seq<Byte> | |p| == PAGE witness seq(PAGE, _ => 0)

  /** `marked` is the bad mark in the spare area of the first page. */
  datatype Block = Block(marked: bool, pages: seq<Page>)

  const ERASED: seq<Page> := seq(PAGES_PER_BLOCK, _ => seq(PAGE, _ => 255))

  /** The flash with its defects: which erases and which page writes will report an error.
      One run erases a block and writes a page at most once, so nothing is lost by fixing this. */
  class Flash {
    const eraseFails: nat -> bool
    const writeFails: (nat, nat) -> bool
    var blocks: seq<Block>

    ghost predicate Valid()
      reads this
    {
      forall b :: 0 <= b < |blocks| ==> |blocks[b].pages| == PAGES_PER_BLOCK
    }

    method IsBadBlock(b: nat) returns (bad: bool)
      requires Valid() && b < |blocks|
      ensures bad == blocks[b].marked
    {
      bad := blocks[b].marked;
    }

    method MarkBadBlock(b: nat)
      requires Valid() && b < |blocks|
      modifies this
      ensures Valid() && blocks == old(blocks)[b := old(blocks)[b].(marked := true)]
    {
      blocks := blocks[b := blocks[b].(marked := true)];
    }

    method EraseBlock(b: nat) returns (ok: bool)
      requires Valid() && b < |blocks|
      modifies this
      ensures Valid() && |blocks| == |old(blocks)|
      ensures ok <==> !old(blocks)[b].marked && !eraseFails(b)
      ensures ok ==> blocks == old(blocks)[b := Block(false, ERASED)]
      ensures !ok ==> blocks[b].marked && blocks == old(blocks)[b := blocks[b]]
    {
      var bad := IsBadBlock(b);
      if bad {
        return false;
      }
      if eraseFails(b) {
        MarkBadBlock(b);
        return false;
      }
      blocks := blocks[b := Block(false, ERASED)];
      return true;
    }

    /** A failed write leaves anything in the page and marks the block. */
    method WritePage(b: nat, p: nat, data: Page) returns (ok: bool)
      requires Valid() && b < |blocks| && p < PAGES_PER_BLOCK && !blocks[b].marked
      modifies this
      ensures Valid() && |blocks| == |old(blocks)|
      ensures ok <==> !writeFails(b, p)
      ensures ok ==> blocks == old(blocks)[b := Block(false, old(blocks)[b].pages[p := data])]
      ensures !ok ==> blocks[b].marked && blocks == old(blocks)[b := blocks[b]]
    {
      if writeFails(b, p) {
        var garbage: Page := *;
        blocks := blocks[b := blocks[b].(pages := blocks[b].pages[p := garbage])];
        MarkBadBlock(b);
        return false;
      }
      blocks := blocks[b := blocks[b].(pages := blocks[b].pages[p := data])];
      return true;
    }
  }
}

module NandProgram {
  import opened Common
  import opened NandFlash

  /** Even an empty source costs one page, because the size is checked after each write. */
  function PageCount(size: nat): nat {
    if size == 0 then 1 else (size + PAGE - 1) / PAGE
  }

  /** Pages m to n of the source. */
  function SourcePages(src: seq<Byte>, m: nat, n: nat): (r: seq<Page>)
    requires m <= n && PAGE * n <= |src|
    ensures |r| == n - m
  {
    seq(n - m, i requires 0 <= i < n - m => src[PAGE * (m + i)..PAGE * (m + i + 1)])
  }

  /** What a reader finds in the blocks from lo up to hi, skipping the marked ones. */
  function Content(blocks: seq<Block>, lo: nat, hi: nat): seq<Page>
    requires lo <= hi <= |blocks|
    decreases hi - lo
  {
    if lo == hi then []
    else Content(blocks, lo, hi - 1) + if blocks[hi - 1].marked then [] else blocks[hi - 1].pages
  }

  /** Reading n pages upward from block b, skipping marked blocks. */
  function ReadUp(blocks: seq<Block>, b: nat, n: nat): seq<Page>
    requires forall i :: 0 <= i < |blocks| ==> |blocks[i].pages| == PAGES_PER_BLOCK
    decreases |blocks| - b
  {
    if n == 0 || b >= |blocks| then []
    else if blocks[b].marked then ReadUp(blocks, b + 1, n)
    else
      var k := Min(PAGES_PER_BLOCK, n);
      blocks[b].pages[..k] + ReadUp(blocks, b + 1, n - k)
  }

  /** The block takes the first k pages without an error. */
  predicate Takes(f: Flash, blocks: seq<Block>, b: nat, k: nat)
    requires b < |blocks|
  {
    !blocks[b].marked && !f.eraseFails(b) && forall p: nat :: p < k ==> !f.writeFails(b, p)
  }

  /** There is room for n pages from block b upward. */
  predicate Room(f: Flash, blocks: seq<Block>, b: nat, n: nat)
    decreases |blocks| - b
  {
    if b >= |blocks| then false
    else if Takes(f, blocks, b, Min(PAGES_PER_BLOCK, n)) then
      n <= PAGES_PER_BLOCK || Room(f, blocks, b + 1, n - PAGES_PER_BLOCK)
    else Room(f, blocks, b + 1, n)
  }

  /** These blocks from `lo` upward can hold n pages, 32 to a block: they are unmarked, erase well, and
      take every page that falls to them. */
  ghost predicate CanHold(f: Flash, blocks: seq<Block>, chosen: seq<nat>, lo: nat, n: nat) {
    && (forall i :: 0 <= i < |chosen| ==>
          lo <= chosen[i] < |blocks| && !blocks[chosen[i]].marked && !f.eraseFails(chosen[i]))
    && (forall i, j :: 0 <= i < j < |chosen| ==> chosen[i] < chosen[j])
    && n <= 32 * |chosen|
    && (forall i: nat, p: nat :: i < |chosen| && p < 32 && 32 * i + p < n ==> !f.writeFails(chosen[i], p))
  }

  /** The search takes whatever block it can. That never costs it room: if any blocks can hold at least
      as many pages, it finds room too. */
  lemma {:induction false} RoomFound(f: Flash, blocks: seq<Block>, chosen: seq<nat>, b: nat, n: nat, m: nat)
    requires CanHold(f, blocks, chosen, b, n) && 0 < m <= n
    ensures Room(f, blocks, b, m)
    decreases |blocks| - b
  {
    assert b <= chosen[0] < |blocks|;
    if chosen[0] == b {
      forall p: nat | p < Min(PAGES_PER_BLOCK, m)
        ensures !f.writeFails(b, p)
      {
        assert 32 * 0 + p < n;
      }
      if m > PAGES_PER_BLOCK {
        HoldRest(f, blocks, chosen, b, n);
        RoomFound(f, blocks, chosen[1..], b + 1, n - PAGES_PER_BLOCK, m - PAGES_PER_BLOCK);
      }
    } else {
      assert CanHold(f, blocks, chosen, b + 1, n);
      if !Takes(f, blocks, b, Min(PAGES_PER_BLOCK, m)) {
        RoomFound(f, blocks, chosen, b + 1, n, m);
      } else if m > PAGES_PER_BLOCK {
        RoomFound(f, blocks, chosen, b + 1, n, m - PAGES_PER_BLOCK);
      }
    }
  }

  lemma {:induction false} HoldRest(f: Flash, blocks: seq<Block>, chosen: seq<nat>, b: nat, n: nat)
    requires CanHold(f, blocks, chosen, b, n) && n > PAGES_PER_BLOCK && chosen[0] == b
    ensures CanHold(f, blocks, chosen[1..], b + 1, n - PAGES_PER_BLOCK)
  {
    var rest := chosen[1..];
    forall i: nat, p: nat | i < |rest| && p < 32 && 32 * i + p < n - PAGES_PER_BLOCK
      ensures !f.writeFails(rest[i], p)
    {
      assert 32 * (i + 1) + p < n;
      assert rest[i] == chosen[i + 1];
    }
  }

  lemma {:induction false} HoldMore(f: Flash, blocks: seq<Block>, rest: seq<nat>, b: nat, n: nat)
    requires CanHold(f, blocks, rest, b + 1, n) && b < |blocks| && Takes(f, blocks, b, PAGES_PER_BLOCK)
    ensures CanHold(f, blocks, [b] + rest, b, n + PAGES_PER_BLOCK)
  {
    var chosen := [b] + rest;
    forall i: nat, p: nat | i < |chosen| && p < 32 && 32 * i + p < n + PAGES_PER_BLOCK
      ensures !f.writeFails(chosen[i], p)
    {
      if i > 0 {
        assert 32 * (i - 1) + p < n;
        assert chosen[i] == rest[i - 1];
      }
    }
  }

  lemma {:induction false} RoomBlocks(f: Flash, blocks: seq<Block>, b: nat, n: nat) returns (chosen: seq<nat>)
    requires Room(f, blocks, b, n)
    ensures CanHold(f, blocks, chosen, b, n)
    decreases |blocks| - b
  {
    if !Takes(f, blocks, b, Min(PAGES_PER_BLOCK, n)) {
      chosen := RoomBlocks(f, blocks, b + 1, n);
    } else if n <= PAGES_PER_BLOCK {
      chosen := [b];
    } else {
      chosen := RoomBlocks(f, blocks, b + 1, n - PAGES_PER_BLOCK);
      HoldMore(f, blocks, chosen, b, n - PAGES_PER_BLOCK);
      chosen := [b] + chosen;
    }
  }

  /** There is room exactly when some blocks can hold the pages, whatever the blocks between them do. */
  lemma {:induction false} RoomMeaning(f: Flash, blocks: seq<Block>, b: nat, n: nat)
    requires n > 0
    ensures Room(f, blocks, b, n) <==> exists chosen :: CanHold(f, blocks, chosen, b, n)
  {
    if Room(f, blocks, b, n) {
      var chosen := RoomBlocks(f, blocks, b, n);
    }
    if chosen: seq<nat> :| CanHold(f, blocks, chosen, b, n) {
      RoomFound(f, blocks, chosen, b, n, n);
    }
  }

  lemma {:induction false} ContentSame(blocks: seq<Block>, blocks': seq<Block>, lo: nat, hi: nat)
    requires lo <= hi <= |blocks| == |blocks'| && forall b :: lo <= b < hi ==> blocks[b] == blocks'[b]
    ensures Content(blocks, lo, hi) == Content(blocks', lo, hi)
    decreases hi - lo
  {
    if lo < hi {
      ContentSame(blocks, blocks', lo, hi - 1);
    }
  }

  lemma {:induction false} ContentFirst(blocks: seq<Block>, lo: nat, hi: nat)
    requires lo < hi <= |blocks|
    ensures Content(blocks, lo, hi)
         == (if blocks[lo].marked then [] else blocks[lo].pages) + Content(blocks, lo + 1, hi)
    decreases hi - lo
  {
    if lo + 1 < hi {
      ContentFirst(blocks, lo, hi - 1);
      var first, middle := if blocks[lo].marked then [] else blocks[lo].pages, Content(blocks, lo + 1, hi - 1);
      var last := if blocks[hi - 1].marked then [] else blocks[hi - 1].pages;
      assert (first + middle) + last == first + (middle + last);
    } else {
      assert Content(blocks, lo, lo) == [];
    }
  }

  /** The reader first finds the content of the lower blocks, then goes on with the block above. */
  lemma {:induction false} ReadUpContent(blocks: seq<Block>, lo: nat, hi: nat, n: nat)
    requires lo <= hi <= |blocks| && forall i :: 0 <= i < |blocks| ==> |blocks[i].pages| == PAGES_PER_BLOCK
    requires |Content(blocks, lo, hi)| <= n
    ensures ReadUp(blocks, lo, n) == Content(blocks, lo, hi) + ReadUp(blocks, hi, n - |Content(blocks, lo, hi)|)
    decreases hi - lo
  {
    if lo < hi {
      ContentFirst(blocks, lo, hi);
      if blocks[lo].marked {
        ReadUpContent(blocks, lo + 1, hi, n);
      } else if n > 0 {
        assert blocks[lo].pages[..PAGES_PER_BLOCK] == blocks[lo].pages;
        ReadUpContent(blocks, lo + 1, hi, n - PAGES_PER_BLOCK);
      }
    }
  }

  /** So many pages are the least that hold the source, and at least one. */
  lemma EndOfSource(size: nat, j: nat)
    requires j > 0
    ensures PAGE * j >= size <==> j >= PageCount(size)
  {
  }

  lemma NextPage(src: seq<Byte>, m: nat, n: nat)
    requires m <= n && PAGE * (n + 1) <= |src|
    ensures SourcePages(src, m, n + 1) == SourcePages(src, m, n) + [src[PAGE * n..PAGE * n + PAGE]]
  {
  }

  lemma JoinPages(src: seq<Byte>, m: nat, n: nat)
    requires m <= n && PAGE * n <= |src|
    ensures SourcePages(src, 0, m) + SourcePages(src, m, n) == SourcePages(src, 0, n)
  {
  }

  /** The inner loop: the next pages, up to 32, into one erased block. */
  method ProgramBlock(f: Flash, src: seq<Byte>, size: nat, b: nat, from: nat, ghost m: nat)
    returns (srcPt: nat, programError: bool)
    requires f.Valid() && b < |f.blocks| && !f.blocks[b].marked
    requires PAGE * PageCount(size) <= |src| && m < PageCount(size) && from == PAGE * m
    modifies f
    ensures f.Valid() && |f.blocks| == |old(f.blocks)| && f.blocks == old(f.blocks)[b := f.blocks[b]]
    ensures var k := Min(PAGES_PER_BLOCK, PageCount(size) - m);
            && (programError <==> exists p: nat :: p < k && f.writeFails(b, p))
            && (programError ==> f.blocks[b].marked)
            && (!programError ==> !f.blocks[b].marked && srcPt == PAGE * (m + k)
                                  && f.blocks[b].pages[..k] == SourcePages(src, m, m + k))
  {
    ghost var total := PageCount(size);
    srcPt := from;
    programError := false;
    var i: nat := 0;
    while i < PAGES_PER_BLOCK
      invariant i <= Min(PAGES_PER_BLOCK, total - m)
      invariant i < PAGES_PER_BLOCK ==> m + i < total
      invariant srcPt == PAGE * (m + i)
      invariant f.Valid() && |f.blocks| == |old(f.blocks)| && f.blocks == old(f.blocks)[b := f.blocks[b]]
      invariant !f.blocks[b].marked && f.blocks[b].pages[..i] == SourcePages(src, m, m + i)
      invariant forall p: nat :: p < i ==> !f.writeFails(b, p)
    {
      ghost var before := f.blocks[b].pages;
      var ok := f.WritePage(b, i, src[srcPt..srcPt + PAGE]);
      if !ok {
        programError := true;
        return;
      }
      NextPage(src, m, m + i);
      assert f.blocks[b].pages[..i + 1] == before[..i] + [src[srcPt..srcPt + PAGE]];
      srcPt := srcPt + PAGE;
      i := i + 1;
      EndOfSource(size, m + i);
      if srcPt >= size {
        break;
      }
    }
  }

  /** The attempt at one block: it takes the next pages, or ends up marked and is skipped. */
  method TryBlock(f: Flash, src: seq<Byte>, size: nat, b: nat, saveSrcPt: nat, ghost m: nat)
    returns (placed: bool, srcPt: nat)
    requires f.Valid() && b < |f.blocks|
    requires PAGE * PageCount(size) <= |src| && m < PageCount(size) && saveSrcPt == PAGE * m
    modifies f
    ensures f.Valid() && |f.blocks| == |old(f.blocks)| && f.blocks == old(f.blocks)[b := f.blocks[b]]
    ensures var k := Min(PAGES_PER_BLOCK, PageCount(size) - m);
            && (placed <==> Takes(f, old(f.blocks), b, k))
            && (!placed ==> f.blocks[b].marked && srcPt == saveSrcPt)
            && (placed ==> !f.blocks[b].marked && srcPt == PAGE * (m + k)
                           && f.blocks[b].pages[..k] == SourcePages(src, m, m + k))
  {
    srcPt := saveSrcPt;
    var bad := f.IsBadBlock(b);
    if bad {
      return false, srcPt;
    }
    var erased := f.EraseBlock(b);
    if !erased {
      return false, srcPt;
    }
    var programError;
    srcPt, programError := ProgramBlock(f, src, size, b, srcPt, m);
    if programError {
      return false, saveSrcPt;
    }
    return true, srcPt;
  }

  /** No bad mark goes away, and the blocks below the target are as they were. */
  predicate Kept(before: seq<Block>, blocks: seq<Block>, target: nat) {
    && |blocks| == |before|
    && (forall b :: 0 <= b < |blocks| && before[b].marked ==> blocks[b].marked)
    && (forall b :: 0 <= b < |blocks| && b < target ==> blocks[b] == before[b])
  }

  /** The first m pages lie in the blocks from `target` up to `next`, all others are untouched. */
  ghost predicate Placed(before: seq<Block>, blocks: seq<Block>, src: seq<Byte>, target: nat, next: nat, m: nat)
    requires PAGE * m <= |src|
  {
    && target <= next && Kept(before, blocks, target)
    && (next <= |blocks| ==> Content(blocks, target, next) == SourcePages(src, 0, m))
    && (forall b :: next <= b < |blocks| ==> blocks[b] == before[b])
  }

  lemma {:induction false} PlacedNext(before: seq<Block>, blocks: seq<Block>, src: seq<Byte>, target: nat, b: nat,
                                      m: nat, k: nat, block: Block)
    requires PAGE * (m + k) <= |src| && b < |blocks| && Placed(before, blocks, src, target, b, m)
             && |before| == |blocks|
    requires before[b].marked ==> block.marked
    requires if block.marked then k == 0 else k == |block.pages| && block.pages[..k] == SourcePages(src, m, m + k)
    ensures Placed(before, blocks[b := block], src, target, b + 1, m + k)
  {
    assert block.pages[..|block.pages|] == block.pages;
    ContentSame(blocks, blocks[b := block], target, b);
    JoinPages(src, m, m + k);
  }

  /** One step of the search for room, for blocks of which this one has not changed. */
  lemma {:induction false} RoomStep(f: Flash, was: seq<Block>, now: seq<Block>, b: nat, n: nat)
    requires b < |was| == |now| && was[b] == now[b]
    ensures Takes(f, now, b, Min(PAGES_PER_BLOCK, n)) ==> !was[b].marked
    ensures Room(f, was, b, n) <==>
              if Takes(f, now, b, Min(PAGES_PER_BLOCK, n)) then
                n <= PAGES_PER_BLOCK || Room(f, was, b + 1, n - PAGES_PER_BLOCK)
              else Room(f, was, b + 1, n)
  {
  }

  lemma RoomEnds(f: Flash, blocks: seq<Block>, b: nat, n: nat)
    requires b >= |blocks|
    ensures !Room(f, blocks, b, n)
  {
  }

  lemma PlacedFrame(before: seq<Block>, blocks: seq<Block>, src: seq<Byte>, target: nat, next: nat, m: nat)
    requires PAGE * m <= |src| && Placed(before, blocks, src, target, next, m)
    ensures |blocks| == |before| && (next < |blocks| ==> blocks[next] == before[next])
    ensures Kept(before, blocks, target)
  {
  }

  /** One round of the outer loop; it finishes when the block takes the last page. */
  method NextBlock(f: Flash, src: seq<Byte>, size: nat, b: nat, saveSrcPt: nat, ghost was: seq<Block>,
                   ghost target: nat, ghost m: nat)
    returns (finished: bool, srcPt: nat, ghost n: nat)
    requires f.Valid() && b < |f.blocks|
    requires PAGE * PageCount(size) <= |src| && m < PageCount(size) && saveSrcPt == PAGE * m
    requires Placed(was, f.blocks, src, target, b, m)
    modifies f
    ensures f.Valid() && |f.blocks| == |old(f.blocks)|
    ensures finished ==> Room(f, was, b, PageCount(size) - m) && Kept(was, f.blocks, target)
                         && ReadUp(f.blocks, target, PageCount(size)) == SourcePages(src, 0, PageCount(size))
    ensures !finished ==> n < PageCount(size) && srcPt == PAGE * n && Placed(was, f.blocks, src, target, b + 1, n)
    ensures !finished ==>
              (Room(f, was, b, PageCount(size) - m) <==> Room(f, was, b + 1, PageCount(size) - n))
  {
    hide Placed, Kept, Room, Takes, ReadUp, PageCount, Content, SourcePages;
    ghost var total := PageCount(size);
    ghost var before := f.blocks;
    ghost var k := Min(PAGES_PER_BLOCK, total - m);
    PlacedFrame(was, before, src, target, b, m);
    RoomStep(f, was, before, b, total - m);
    var placed;
    placed, srcPt := TryBlock(f, src, size, b, saveSrcPt, m);
    if placed {
      EndOfSource(size, m + k);
      if srcPt >= size {
        LastBlock(was, before, f.blocks, src, target, b, m, k);
        return true, srcPt, m + k;
      }
    }
    if !placed {
      k := 0;
    }
    PlacedNext(was, before, src, target, b, m, k, f.blocks[b]);
    return false, srcPt, m + k;
  }

  /** Programs the source into the flash from `target` upward. The result is false when the device
      ends before all pages are placed. */
  method Program(f: Flash, src: seq<Byte>, size: nat, target: nat) returns (done: bool)
    requires f.Valid() && PAGE * PageCount(size) <= |src|
    modifies f
    ensures f.Valid()
    ensures done <==> exists chosen :: CanHold(f, old(f.blocks), chosen, target, PageCount(size))
    ensures done ==> ReadUp(f.blocks, target, PageCount(size)) == SourcePages(src, 0, PageCount(size))
    ensures Kept(old(f.blocks), f.blocks, target)
  {
    assert Placed(f.blocks, f.blocks, src, target, target, 0);
    hide *;
    var srcPt: nat := 0;
    var blockIndex: nat := target;
    ghost var m: nat := 0;
    ghost var total := PageCount(size);
    RoomMeaning(f, f.blocks, target, total);
    while blockIndex < |f.blocks|
      invariant f.Valid() && |f.blocks| == |old(f.blocks)| && srcPt == PAGE * m && m < total
      invariant Placed(old(f.blocks), f.blocks, src, target, blockIndex, m)
      invariant Room(f, old(f.blocks), target, total) <==> Room(f, old(f.blocks), blockIndex, total - m)
      decreases |f.blocks| - blockIndex
    {
      done, srcPt, m := NextBlock(f, src, size, blockIndex, srcPt, old(f.blocks), target, m);
      if done {
        return;
      }
      blockIndex := blockIndex + 1;
    }
    PlacedFrame(old(f.blocks), f.blocks, src, target, blockIndex, m);
    RoomEnds(f, old(f.blocks), blockIndex, total - m);
    done := false;
  }

  lemma {:induction false} LastBlock(before: seq<Block>, blocks: seq<Block>, blocks': seq<Block>, src: seq<Byte>,
                                     target: nat, b: nat, m: nat, k: nat)
    requires PAGE * (m + k) <= |src| && b < |blocks| && Placed(before, blocks, src, target, b, m)
             && |before| == |blocks|
    requires 0 < k <= PAGES_PER_BLOCK && |blocks'| == |blocks| && blocks' == blocks[b := blocks'[b]]
             && !blocks'[b].marked && !before[b].marked
    requires forall i :: 0 <= i < |blocks'| ==> |blocks'[i].pages| == PAGES_PER_BLOCK
    requires blocks'[b].pages[..k] == SourcePages(src, m, m + k)
    ensures ReadUp(blocks', target, m + k) == SourcePages(src, 0, m + k)
    ensures Kept(before, blocks', target)
  {
    ContentSame(blocks, blocks', target, b);
    ReadUpContent(blocks', target, b, m + k);
    JoinPages(src, m, m + k);
    assert ReadUp(blocks', b, k) == blocks'[b].pages[..k] + ReadUp(blocks', b + 1, 0);
  }
}
