/**
 The allocator itself: umm_malloc's functions working in place on the heap's words,
 proved against the layout steps.
 */
module UmmHeap {
  import opened HeapLayout
  import opened HeapImage

  /** A client pointer: NULL, or a byte offset from the start of the heap. */
  datatype Ptr = Null | Addr(off: nat)

  /** `&UMM_DATA(c)`. */
  function DataOf(c: nat): (p: Ptr) {
    Addr(8 * c + 4)
  }

  /** The cell a pointer lies in, by truncated division. */
  function CellOf(p: Ptr): (c: nat)
    requires p.Addr?
  {
    p.off / 8
  }

  /** A pointer leads back to its cell and to the words of its payload, two bytes each. */
  lemma PointerToPayload(m: Image, l: Layout, c: nat, j: nat)
    requires Stores(m, l) && c in l.Live() && j < |Payload(m, l, c)|
    ensures CellOf(DataOf(c)) == c
    ensures DataOf(c).off % 2 == 0 && Payload(m, l, c)[j] == m[DataOf(c).off / 2 + j]
  {
    hide Chain, Ring;
  }

  const SIZE_MAX: nat := 0xFFFF_FFFF_FFFF_FFFF

  /** The largest request whose cell count fits 16 bits. */
  const MAX_REQUEST: nat := 8 * 0xFFFF - 4

  /** umm_blocks: the number of cells for `size` bytes, cut to the 16 bits of its result type. */
  function UmmBlocks(size: nat): (r: nat) {
    if size <= 4 then 1 else (2 + (size - 5) / 8) % 0x10000
  }

  /** What umm_malloc promises for `k` cells, as a relation between the heap before and after. */
  ghost predicate Allocated(l: Layout, v: map<nat, seq<Word>>, l': Layout, v': map<nat, seq<Word>>, k: nat, p: Ptr)
    requires l.WellFormed()
  {
    if !l.Fits(k) then p == Null && l' == l && v' == v
    else
      && p.Addr?
      && var c := CellOf(p);
      && p == DataOf(c)
      && c in l.free && k <= l.Size(c) && c !in v && c in v'
      && l.BestFit(k, c)
      && l' == l.Alloc(c, k)
      && v' - {c} == v
      && |v'[c]| == 4 * k - 2
  }

  function Min(a: nat, b: nat): (r: nat)
    ensures r <= a && r <= b && (r == a || r == b)
  {
    if a < b then a else b
  }

  /** What umm_realloc promises when it resizes the live block `c` to `k` cells. */
  ghost predicate Reallocated(l: Layout, v: map<nat, seq<Word>>, l': Layout, v': map<nat, seq<Word>>,
                              c: nat, k: nat, p: Ptr)
    requires l.Good() && c in l.Live() && l'.Good()
  {
    if l.Room(c) < k && !l.Fits(k) then p == Null && l' == l && v' == v
    else
      && p.Addr?
      && var d := CellOf(p);
      && p == DataOf(d)
      && d in l'.Live() && l'.Size(d) == k
      && Relocated(v, v', c, d, 4 * Min(k, l.Size(c)) - 2)
      && if k <= l.Room(c) then d == l.Place(c, k) && l' == l.Enlarged(c, k).TrimmedTo(d, k)
         else l.BestFit(k, d) && d in l.free && l' == l.Alloc(d, k).Release(c)
  }

  /** What the scan knows after the first `i` members of the free list. */
  ghost predicate ScanState(l: Layout, blocks: nat, i: nat, best: nat, blockSize: nat, bestBlock: nat, bestSize: nat)
    requires l.WellFormed() && i <= |l.free|
  {
    && blockSize == (if i == 0 then 0 else l.Size(l.free[i - 1]))
    && if bestSize == 0x7FFF
       then forall j :: 0 <= j < i ==> l.Size(l.free[j]) < blocks
       else l.BestAmong(blocks, best, i) && bestBlock == l.free[best] && bestSize == l.Size(bestBlock)
  }

  /** On a fresh heap the free list is not empty, so it does not matter what memory held before. */
  lemma WrappedFresh(m: Image, before: Image, l: Layout, m': Image, p: Ptr)
    requires l.WellFormed() && l.free != [] && Wrapped(m, l, m', p)
    ensures Wrapped(before, l, m', p)
  {
  }

  lemma ScanBegin(l: Layout, blocks: nat)
    requires l.WellFormed()
    ensures forall b: nat :: ScanState(l, blocks, 0, 0, 0, b, 0x7FFF)
  {
  }

  lemma ScanEnd(l: Layout, blocks: nat, best: nat, blockSize: nat, bestBlock: nat, bestSize: nat)
    requires l.WellFormed() && ScanState(l, blocks, |l.free|, best, blockSize, bestBlock, bestSize)
    ensures bestSize == 0x7FFF ==> !l.Fits(blocks) && if blocks == 0 then l.free == [] && blockSize == 0 else blockSize < blocks
    ensures bestSize != 0x7FFF ==>
      l.Fits(blocks) && bestBlock in l.free && l.BestFit(blocks, bestBlock) && blocks <= bestSize == l.Size(bestBlock)
  {
  }

  lemma ScanStep(l: Layout, blocks: nat, i: nat, best: nat, prev: nat, blockSize: nat, bestBlock: nat, bestSize: nat)
    requires l.WellFormed() && i < |l.free| && bestSize <= 0x7FFF
    requires ScanState(l, blocks, i, best, prev, bestBlock, bestSize)
    requires blockSize == l.Size(l.free[i]) < 0x7FFF
    ensures if blocks <= blockSize < bestSize
            then ScanState(l, blocks, i + 1, i, blockSize, l.free[i], blockSize)
            else ScanState(l, blocks, i + 1, best, blockSize, bestBlock, bestSize)
  {
    hide Layout.Size, Distinct;
  }

  /** umm_blocks is the least cell count that can hold the request, as long as it fits 16 bits. */
  lemma BlocksLeast(size: nat, n: nat)
    requires size <= MAX_REQUEST && 0 < n
    ensures 0 < UmmBlocks(size)
    ensures UmmBlocks(size) <= n <==> size <= 8 * n - 4
  {
  }

  /** In full: the least cell count `n` that can hold the request, modulo 2^16. */
  lemma BlocksExact(size: nat, n: nat)
    requires 0 < n && size <= 8 * n - 4 && (n == 1 || 8 * (n - 1) - 4 < size)
    ensures UmmBlocks(size) == n % 0x10000
  {
  }

  /** A block of umm_blocks(size) cells holds `size` bytes exactly when the count did not wrap. */
  lemma BlocksSuffice(size: nat)
    ensures size <= 8 * UmmBlocks(size) - 4 <==> size <= MAX_REQUEST
  {
  }

  /** The first request that goes wrong: its cell count wraps to zero. */
  lemma BlocksWrap()
    ensures UmmBlocks(MAX_REQUEST + 1) == 0 && UmmBlocks(MAX_REQUEST + 9) == 1
  {
  }

  /** umm_calloc's byte count, with the wrap-around of size_t. */
  function CallocTotal(num: nat, itemSize: nat): (r: nat)
    ensures r <= SIZE_MAX
  {
    (itemSize * num) % (SIZE_MAX + 1)
  }

  /** The product itself as long as it fits size_t, otherwise congruent to it. */
  lemma CallocExact(num: nat, itemSize: nat)
    ensures itemSize * num <= SIZE_MAX ==> CallocTotal(num, itemSize) == itemSize * num
    ensures exists q: nat :: itemSize * num == q * 0x1_0000_0000_0000_0000 + CallocTotal(num, itemSize)
  {
    var product := itemSize * num;
    assert product == (product / (SIZE_MAX + 1)) * 0x1_0000_0000_0000_0000 + CallocTotal(num, itemSize);
  }

  /** The block umm_calloc asks for holds all the items exactly when they fit the largest request: neither the
      product nor the cell count has wrapped. */
  lemma CallocSuffices(num: nat, itemSize: nat)
    ensures itemSize * num <= 8 * UmmBlocks(CallocTotal(num, itemSize)) - 4 <==> itemSize * num <= MAX_REQUEST
  {
    BlocksSuffice(CallocTotal(num, itemSize));
  }

  /** A product that wraps: two bytes are asked for instead of 2^64 + 2. */
  lemma CallocWrap()
    ensures CallocTotal(0x8000_0000_0000_0001, 2) == 2 && UmmBlocks(2) == 1
  {
  }

  /** Clearing more than the largest request, from any cell, would leave a heap of any size. */
  lemma CallocOverruns(total: nat, numblocks: nat, c: nat)
    requires MAX_REQUEST < total && numblocks <= 0x8000
    ensures 8 * numblocks < DataOf(c).off + total
  {
  }

  /** What umm_malloc does when the cell count of a request has wrapped to 0. With an empty free list it returns the
      list head, which is nobody's block; otherwise it cuts nothing off the smallest free block, and what is left
      is no heap. */
  ghost predicate Wrapped(m: Image, l: Layout, m': Image, p: Ptr)
    requires l.WellFormed()
  {
    && p.Addr? && p == DataOf(CellOf(p)) && CellOf(p) !in l.Live()
    && if l.free == [] then CellOf(p) == 0 && m' == m
       else CellOf(p) in l.free && l.BestFit(0, CellOf(p)) && forall l' :: !Stores(m', l')
  }

  /** The first `bytes` bytes of a payload of little-endian words are zero. */
  predicate ZeroBytes(s: seq<Word>, bytes: nat) {
    && (bytes + 1) / 2 <= |s|
    && (forall i :: 0 <= i < bytes / 2 ==> s[i] == 0)
    && (bytes % 2 == 1 ==> s[bytes / 2] % 0x100 == 0)
  }

  lemma ZeroView(m: Image, m': Image, l: Layout, c: nat, bytes: nat)
    requires Stores(m, l) && c in l.Live() && |m'| == |m| && (bytes + 1) / 2 <= 4 * l.Size(c) - 2
    requires forall i :: 0 <= i < |m| && !(4 * c + 2 <= i < 4 * c + 2 + (bytes + 1) / 2) ==> m'[i] == m[i]
    requires forall i :: 4 * c + 2 <= i < 4 * c + 2 + bytes / 2 ==> m'[i] == 0
    requires bytes % 2 == 1 ==> m'[4 * c + 2 + bytes / 2] % 0x100 == 0
    ensures Stores(m', l)
    ensures HeapImage.View(m', l) == HeapImage.View(m, l)[c := Payload(m', l, c)]
    ensures ZeroBytes(Payload(m', l, c), bytes)
  {
    hide Chain, Ring, HeapImage.View;
    PayloadWrite(m, m', l, c);
  }

  class Heap {
    const numblocks: nat
    const mem: array<Word>
    var ready: bool
    ghost var layout: Layout

    ghost predicate Sized()
      reads this
    {
      3 <= numblocks <= 0x8000 && mem.Length == 4 * numblocks && layout.last == numblocks - 1
    }

    ghost predicate Valid()
      reads this, mem
    {
      && Sized()
      && layout.Good()
      && if ready then Stores(mem[..], layout) else layout == Initial(numblocks - 1)
    }

    constructor (numblocks: nat)
      requires 3 <= numblocks <= 0x8000
      ensures Valid() && !ready && this.numblocks == numblocks
    {
      this.numblocks := numblocks;
      mem := new Word[4 * numblocks];
      ready := false;
      layout := Initial(numblocks - 1);
      new;
      InitialGood(numblocks - 1);
    }

    // ----- the cell macros

    function Nb(b: nat): (w: Word)
      requires 4 * b + 3 < mem.Length
      reads mem
      ensures w == NBlock(mem[..], b)
    {
      mem[4 * b]
    }

    function Pb(b: nat): (w: Word)
      requires 4 * b + 3 < mem.Length
      reads mem
      ensures w == PBlock(mem[..], b)
    {
      mem[4 * b + 1]
    }

    function Nf(b: nat): (w: Word)
      requires 4 * b + 3 < mem.Length
      reads mem
      ensures w == NFree(mem[..], b)
    {
      mem[4 * b + 2]
    }

    function Pf(b: nat): (w: Word)
      requires 4 * b + 3 < mem.Length
      reads mem
      ensures w == PFree(mem[..], b)
    {
      mem[4 * b + 3]
    }

    method SetNb(b: nat, w: Word)
      requires 4 * b + 3 < mem.Length
      modifies mem
      ensures mem[..] == PutNBlock(old(mem[..]), b, w)
    {
      mem[4 * b] := w;
    }

    method SetPb(b: nat, w: Word)
      requires 4 * b + 3 < mem.Length
      modifies mem
      ensures mem[..] == PutPBlock(old(mem[..]), b, w)
    {
      mem[4 * b + 1] := w;
    }

    method SetNf(b: nat, w: Word)
      requires 4 * b + 3 < mem.Length
      modifies mem
      ensures mem[..] == PutNFree(old(mem[..]), b, w)
    {
      mem[4 * b + 2] := w;
    }

    method SetPf(b: nat, w: Word)
      requires 4 * b + 3 < mem.Length
      modifies mem
      ensures mem[..] == PutPFree(old(mem[..]), b, w)
    {
      mem[4 * b + 3] := w;
    }

    // ----- the building blocks

    /** The three words that umm_disconnect_from_free_list writes. */
    method UnlinkWords(c: nat)
      requires Sized() && c < numblocks && Pf(c) < numblocks && Nf(c) < numblocks && (Pf(c) == c ==> Nf(c) == c)
      modifies mem
      ensures mem[..] == UnlinkImage(old(mem[..]), c)
    {
      SetNf(Pf(c), Nf(c));
      SetPf(Nf(c), Pf(c));
      SetNb(c, BlockNo(Nb(c)));
    }

    method DisconnectFromFreeList(c: nat)
      requires Valid() && ready && c in layout.free
      modifies `layout, mem
      ensures Valid() && layout == old(layout).Unlink(c)
      ensures Quiet(old(mem[..]), mem[..], old(layout), {})
    {
      ghost var m, l := mem[..], layout;
      LinksOf(m, l, c);
      UnlinkWords(c);
      UnlinkStores(m, mem[..], l, c);
      UnlinkQuiet(m, mem[..], l, c);
      UnlinkGood(l, c);
      layout := layout.Unlink(c);
    }

    method AssimilateUp(c: nat)
      requires Valid() && ready && c in layout.Live()
      modifies `layout, mem
      ensures Valid() && layout == old(layout).MergeUp(c)
      ensures Quiet(old(mem[..]), mem[..], old(layout), {})
    {
      ghost var m, l := mem[..], layout;
      HeadersOf(m, l, c);
      MergeUpGood(l, c);
      if IsFree(Nb(Nb(c))) {
        DisconnectFromFreeList(Nb(c));
        ghost var m1, l1 := mem[..], layout;
        UnlinkGood(l, l.Next(c));
        HeadersOf(m1, l1, c);
        HeadersOf(m1, l1, l.Next(c));
        SetPb(BlockNo(Nb(Nb(c))), c);
        SetNb(c, BlockNo(Nb(Nb(c))));
        AbsorbUpStores(m1, mem[..], l1, c);
        layout := layout.(blocks := layout.blocks - {l.Next(c)});
        QuietTrans(m, m1, mem[..], l, l1);
      }
    }

    method AssimilateDown(c: nat, freemask: Word) returns (p: nat)
      requires Valid() && ready && c in layout.Live()
      requires (freemask == FREELIST_MASK && layout.Prev(c) in layout.free && layout.Next(c) !in layout.free)
            || (freemask == 0 && layout.Prev(c) in layout.Live())
      modifies `layout, mem
      ensures Valid() && layout == old(layout).MergeDown(c) && p == old(layout).Prev(c)
      ensures Quiet(old(mem[..]), mem[..], old(layout), {})
    {
      ghost var m, l := mem[..], layout;
      HeadersOf(m, l, c);
      SetNb(Pb(c), Nb(c) + freemask);
      SetPb(Nb(c), Pb(c));
      MergeDownStores(m, mem[..], l, c, l.Next(c) + freemask);
      MergeDownGood(l, c);
      layout := layout.MergeDown(c);
      p := Pb(c);
    }

    /** Writes headers only; what the halves are used for is up to the caller. */
    method SplitBlock(c: nat, blocks: nat, newFreemask: Word)
      requires Sized() && c + blocks < numblocks && newFreemask in {0, FREELIST_MASK}
      requires BlockNo(Nb(c)) < numblocks
      modifies mem
      ensures mem[..] == SplitImage(old(mem[..]), c, blocks, newFreemask)
    {
      ghost var n := BlockNo(Nb(c));
      SetNb(c + blocks, BlockNo(Nb(c)) + newFreemask);
      SetPb(c + blocks, c);
      assert BlockNo(Nb(c)) == n;
      SetPb(BlockNo(Nb(c)), c + blocks);
      SetNb(c, c + blocks);
    }

    // ----- what clients see

    ghost function View(): (v: map<nat, seq<Word>>)
      requires Valid()
      reads this, mem
      ensures v.Keys == layout.Live()
    {
      HeapImage.View(mem[..], layout)
    }

    /** `p` is a pointer that the allocator handed out and has not taken back. */
    ghost predicate Holds(p: Ptr)
      reads this
    {
      p.Addr? && CellOf(p) in layout.Live() && p == DataOf(CellOf(p))
    }

    /** memset to zero, word by word. */
    method Clear(lo: nat, hi: nat)
      requires lo <= hi <= mem.Length
      modifies mem
      ensures forall j :: lo <= j < hi ==> mem[j] == 0
      ensures forall j :: 0 <= j < mem.Length && !(lo <= j < hi) ==> mem[j] == old(mem[j])
    {
      var i := lo;
      while i < hi
        invariant lo <= i <= hi
        invariant forall j :: lo <= j < i ==> mem[j] == 0
        invariant forall j :: 0 <= j < mem.Length && !(lo <= j < i) ==> mem[j] == old(mem[j])
      {
        mem[i] := 0;
        i := i + 1;
      }
    }

    /** The blank heap: one free block between the two end cells. */
    method WriteBlankHeap()
      requires Sized()
      modifies mem
      ensures mem[..] == InitImage(numblocks - 1)
    {
      Clear(0, mem.Length);
      assert mem[..] == seq(mem.Length, _ => 0);
      var last := numblocks - 1;
      SetNb(0, 1);
      SetNf(0, 1);
      SetPf(0, 1);
      SetNb(1, last + FREELIST_MASK);
      SetNf(1, 0);
      SetPb(1, 0);
      SetPf(1, 0);
      SetNb(last, 0);
      SetPb(last, 1);
    }

    method Init()
      requires Sized()
      modifies this, mem
      ensures Valid() && ready && layout == Initial(numblocks - 1)
      ensures View() == map[]
    {
      hide Chain, Ring, InitImage;
      WriteBlankHeap();
      InitStores(numblocks - 1);
      layout := Initial(numblocks - 1);
      ready := true;
      assert View().Keys == {};
    }

    /** The five words that umm_free writes to put a block at the head of the free list. */
    method LinkWords(c: nat)
      requires Sized() && 0 < c < numblocks && Nf(0) < numblocks
      modifies mem
      ensures var m := old(mem[..]);
        mem[..] == PutNBlock(PutNFree(PutPFree(PutNFree(PutPFree(m, NFree(m, 0), c), c, NFree(m, 0)), c, 0), 0, c),
                             c, MarkFree(NBlock(m, c)))
    {
      SetPf(Nf(0), c);
      SetNf(c, Nf(0));
      SetPf(c, 0);
      SetNf(0, c);
      SetNb(c, MarkFree(Nb(c)));
    }

    /** The branch of umm_free that adds the block to the head of the free list. */
    method LinkAtHead(c: nat)
      requires Valid() && ready && c in layout.Live()
      requires layout.Next(c) !in layout.free && layout.Prev(c) !in layout.free
      modifies `layout, mem
      ensures Valid() && layout == old(layout).(free := [c] + old(layout).free)
      ensures Quiet(old(mem[..]), mem[..], old(layout), {c})
    {
      ghost var m, l := mem[..], layout;
      HeadersOf(m, l, c);
      assert At(l.free, 0) == 0 && Nf(0) == At(l.free, 1);
      ghost var m1 := PutNFree(PutPFree(PutNFree(PutPFree(m, NFree(m, 0), c), c, NFree(m, 0)), c, 0), 0, c);
      LinkWords(c);
      LinkStores(m, m1, mem[..], l, c);
      LinkQuiet(m, m1, mem[..], l, c);
      LinkGood(l, c);
      layout := layout.(free := [c] + layout.free);
    }

    method Free(p: Ptr)
      requires Valid()
      requires p.Null? || (ready && Holds(p))
      modifies `layout, mem
      ensures Valid()
      ensures p.Null? ==> layout == old(layout) && mem[..] == old(mem[..])
      ensures p.Addr? ==> layout == old(layout).Release(CellOf(p)) && View() == old(View()) - {CellOf(p)}
    {
      if p.Null? { return; }
      var c := CellOf(p);
      ghost var m, l := mem[..], layout;
      AssimilateUp(c);
      ghost var m1, l1 := mem[..], layout;
      MergeUpGood(l, c);
      HeadersOf(m1, l1, c);
      NextOfPrev(l, c);
      if l.Next(c) in l.free { UnlinkGood(l, l.Next(c)); }
      if IsFree(Nb(Pb(c))) {
        var _ := AssimilateDown(c, FREELIST_MASK);
      } else {
        LinkAtHead(c);
      }
      ReleaseView(m, m1, mem[..], l, c);
    }

    /** The free-list scan of umm_malloc, in its best-fit configuration. */
    method Scan(blocks: nat) returns (cf: nat, blockSize: nat)
      requires Valid() && ready
      ensures layout.Fits(blocks) ==> cf in layout.free && layout.BestFit(blocks, cf) && blocks <= blockSize == layout.Size(cf)
      ensures !layout.Fits(blocks) ==> if blocks == 0 then layout.free == [] && cf == blockSize == 0 else blockSize < blocks
      ensures cf < numblocks && BlockNo(Nb(cf)) != 0
    {
      hide ScanState, Stores, Layout.Live, Layout.Coalesced;
      ghost var m, l := mem[..], layout;
      ghost var i, best := 0, 0;
      blockSize := 0;
      ScanStart(m, l);
      ScanBegin(l, blocks);
      cf := Nf(0);
      var bestBlock: nat := Nf(0);
      var bestSize: nat := 0x7FFF;
      while cf != 0
        invariant 0 <= i <= |l.free| && cf == At(l.free, i + 1)
        invariant ScanState(l, blocks, i, best, blockSize, bestBlock, bestSize)
        invariant bestSize <= 0x7FFF
        decreases |l.free| - i
      {
        ScanCell(m, l, i);
        ghost var prev := blockSize;
        blockSize := BlockNo(Nb(cf)) - cf;
        ScanStep(l, blocks, i, best, prev, blockSize, bestBlock, bestSize);
        if blocks <= blockSize && blockSize < bestSize {
          bestBlock := cf;
          bestSize := blockSize;
          best := i;
        }
        cf := Nf(cf);
        i := i + 1;
      }
      ScanEnd(l, blocks, best, blockSize, bestBlock, bestSize);
      if bestSize != 0x7FFF {
        cf := bestBlock;
        blockSize := bestSize;
      }
      HeaderOf(m, l, cf);
    }

    /** umm_malloc for a positive size, once the heap is set up. */
    method MallocBlocks(blocks: nat) returns (p: Ptr)
      requires Valid() && ready
      modifies `layout, mem
      ensures 0 < blocks ==> Valid() && Allocated(old(layout), old(View()), layout, View(), blocks, p)
      ensures blocks == 0 ==> layout == old(layout) && Wrapped(old(mem[..]), layout, mem[..], p)
      ensures p.Null? ==> mem[..] == old(mem[..])
    {
      hide Stores, Layout.Good, Layout.Fits, Layout.BestFit, HeapImage.View, Layout.Alloc, Layout.Live, Header;
      var cf, blockSize := Scan(blocks);
      if BlockNo(Nb(cf)) != 0 && blocks <= blockSize {
        if blocks == 0 {
          TakeNothing(cf, blockSize);
        } else {
          TakeFree(cf, blocks, blockSize);
        }
        p := DataOf(cf);
      } else {
        p := Null;
      }
    }

    /** umm_malloc. A non-zero size whose cell count has wrapped to 0 is the one case in which it may fail its callers. */
    method Malloc(size: nat) returns (p: Ptr)
      requires Valid() && size <= SIZE_MAX
      modifies this, mem
      ensures ready
      ensures size == 0 ==> Valid() && p == Null && layout == old(layout) && View() == old(View())
      ensures size > 0 && UmmBlocks(size) != 0 ==> Valid() && Allocated(old(layout), old(View()), layout, View(), UmmBlocks(size), p)
      ensures size > 0 && UmmBlocks(size) == 0 ==> layout == old(layout) && Wrapped(old(mem[..]), layout, mem[..], p)
      ensures old(ready) && p.Null? ==> mem[..] == old(mem[..])
    {
      hide Wrapped;
      ghost var m := mem[..];
      if !ready {
        Init();
        assert old(View()) == map[];
      }
      if size == 0 { return Null; }
      ghost var m1 := mem[..];
      p := MallocBlocks(UmmBlocks(size));
      if UmmBlocks(size) == 0 && !old(ready) { WrappedFresh(m1, m, layout, mem[..], p); }
    }

    /** The tail of umm_malloc for a count of 0. */
    method TakeNothing(cf: nat, blockSize: nat)
      requires Valid() && ready
      requires if layout.free == [] then cf == blockSize == 0
               else cf in layout.free && layout.BestFit(0, cf) && blockSize == layout.Size(cf)
      modifies mem
      ensures Wrapped(old(mem[..]), layout, mem[..], DataOf(cf))
    {
      hide Layout.BestFit, Layout.Coalesced;
      ghost var m := mem[..];
      if blockSize == 0 {
        UnlinkHead(m, layout);
        UnlinkWords(cf);
      } else {
        LinksOf(m, layout, cf);
        HeaderOfFree(m, layout, cf);
        SplitBlock(cf, 0, FREELIST_MASK);
        Relink(cf, cf + 0);
        assert mem[..] == CarveImage(m, cf, 0);
        CarveNothingBreaks(m, layout, cf);
      }
    }

    /** The tail of umm_malloc: unlink an exact fit, or carve a larger block. */
    method TakeFree(cf: nat, blocks: nat, blockSize: nat)
      requires Valid() && ready && cf in layout.free
      requires 0 < blocks <= blockSize == layout.Size(cf)
      modifies `layout, mem
      ensures Valid() && layout == old(layout).Alloc(cf, blocks)
      ensures View() - {cf} == old(View())
      ensures cf in View() && |View()[cf]| == 4 * blocks - 2
    {
      ghost var m, l := mem[..], layout;
      if blockSize == blocks {
        DisconnectFromFreeList(cf);
      } else {
        Carve(cf, blocks);
      }
      AllocView(m, mem[..], l, cf, blocks);
    }

    /** The remainder `x` of a carved block takes the place of `cf` in the free list. */
    method Relink(cf: nat, x: nat)
      requires Sized() && x < numblocks && cf < numblocks && Pf(cf) < numblocks && Nf(cf) < numblocks
      requires Pf(cf) != cf
      modifies mem
      ensures mem[..] == CarveLinks(old(mem[..]), cf, x)
    {
      SetNf(Pf(cf), x);
      SetPf(x, Pf(cf));
      SetPf(Nf(cf), x);
      SetNf(x, Nf(cf));
    }

    method Carve(cf: nat, blocks: nat)
      requires Valid() && ready && cf in layout.free && 0 < blocks < layout.Size(cf)
      modifies `layout, mem
      ensures Valid() && layout == old(layout).Carve(cf, blocks)
      ensures Quiet(old(mem[..]), mem[..], old(layout), {})
    {
      ghost var m, l := mem[..], layout;
      LinksOf(m, l, cf);
      HeaderOfFree(m, l, cf);
      SplitBlock(cf, blocks, FREELIST_MASK);
      Relink(cf, cf + blocks);
      CarveStores(m, mem[..], l, cf, blocks);
      CarveQuiet(m, mem[..], l, cf, blocks);
      CarveGood(l, cf, blocks);
      layout := layout.Carve(cf, blocks);
    }

    /** A client store into its own block. */
    method Write(p: Ptr, j: nat, b: Byte)
      requires Valid() && ready && Holds(p) && j < 2 * |View()[CellOf(p)]|
      modifies mem
      ensures Valid()
      ensures View() == old(View())[CellOf(p) := PokeByte(old(View())[CellOf(p)], j, b)]
    {
      hide Stores, Layout.Coalesced, PokeByte, WithByte, Payload;
      WriteStores(mem[..], layout, CellOf(p), j, b);
      var i := p.off / 2 + j / 2;
      mem[i] := WithByte(mem[i], j % 2 == 1, b);
    }

    // ----- umm_realloc

    /** Strategy 2: absorb the free block above. */
    method GrowUp(c: nat)
      requires Valid() && ready && c in layout.Live()
      modifies `layout, mem
      ensures Valid() && layout == old(layout).MergeUp(c)
      ensures Relocated(old(View()), View(), c, c, 4 * old(layout).Size(c) - 2)
      ensures layout.Size(c) == old(layout).Size(c) + old(layout).FreeAbove(c)
    {
      hide Stores, Relocated, HeapImage.View;
      ghost var m, l := mem[..], layout;
      AssimilateUp(c);
      MergeUpView(m, mem[..], l, c);
    }

    /** Split off what is not needed, and free it. */
    method Trim(c: nat, blocks: nat)
      requires Valid() && ready && c in layout.Live() && 0 < blocks < layout.Size(c)
      modifies `layout, mem
      ensures Valid() && layout == old(layout).Trim(c, blocks) && layout.Size(c) == blocks
      ensures Relocated(old(View()), View(), c, c, 4 * blocks - 2)
    {
      hide Stores, HeapImage.View, Relocated, Layout.Coalesced, Layout.Release;
      TrimGood(layout, c, blocks);
      Cut(c, blocks);
      Free(DataOf(c + blocks));
    }

    /** Splits the used block `c` in two used blocks. */
    method Cut(c: nat, blocks: nat)
      requires Valid() && ready && c in layout.Live() && 0 < blocks < layout.Size(c)
      modifies `layout, mem
      ensures Valid() && layout == old(layout).Split(c, blocks) && c + blocks in layout.Live()
      ensures Relocated(old(View()), View() - {c + blocks}, c, c, 4 * blocks - 2)
    {
      hide Ring, Chain, HeapImage.View, Relocated, SplitImage, Layout.Coalesced;
      ghost var m, l := mem[..], layout;
      HeadersOf(m, l, c);
      SplitBlock(c, blocks, 0);
      SplitStores(m, mem[..], l, c, blocks);
      TrimView(m, mem[..], l, c, blocks);
      SplitGood(l, c, blocks);
      layout := layout.Split(c, blocks);
    }

    /** memmove of `n` words to lower or to higher addresses. */
    method MoveWords(dst: nat, src: nat, n: nat)
      requires dst + n <= mem.Length && src + n <= mem.Length
      modifies mem
      ensures mem[dst..dst + n] == old(mem[src..src + n])
      ensures forall i :: 0 <= i < mem.Length && !(dst <= i < dst + n) ==> mem[i] == old(mem[i])
    {
      if dst <= src {
        var i := 0;
        while i < n
          invariant 0 <= i <= n
          invariant forall j :: 0 <= j < mem.Length && !(dst <= j < dst + i) ==> mem[j] == old(mem[j])
          invariant forall j :: dst <= j < dst + i ==> mem[j] == old(mem[j - dst + src])
        {
          mem[dst + i] := mem[src + i];
          i := i + 1;
        }
      } else {
        var i := n;
        while i > 0
          invariant 0 <= i <= n
          invariant forall j :: 0 <= j < mem.Length && !(dst + i <= j < dst + n) ==> mem[j] == old(mem[j])
          invariant forall j :: dst + i <= j < dst + n ==> mem[j] == old(mem[j - dst + src])
        {
          i := i - 1;
          mem[dst + i] := mem[src + i];
        }
      }
    }

    method AbsorbBelow(c: nat) returns (d: nat)
      requires Valid() && ready && c in layout.Live() && layout.Prev(c) in layout.free
      modifies `layout, mem
      ensures Valid() && d == old(layout).Prev(c) && layout == old(layout).TakeBelow(c)
      ensures Quiet(old(mem[..]), mem[..], old(layout), {})
    {
      hide Ring, Chain, Quiet;
      ghost var m, l := mem[..], layout;
      HeadersOf(m, l, c);
      TakeBelowGood(l, c);
      DisconnectFromFreeList(Pb(c));
      ghost var m1 := mem[..];
      d := AssimilateDown(c, 0);
      TakeBelowQuiet(m, m1, mem[..], l, c);
    }

    /** Strategies 3 and 4: absorb the free block below and move the first `n` words down to it. */
    method TakeBelow(c: nat, n: nat) returns (d: nat)
      requires Valid() && ready && c in layout.Live() && layout.Prev(c) in layout.free && n <= 4 * layout.Size(c) - 2
      modifies `layout, mem
      ensures Valid() && d == old(layout).Prev(c) && layout == old(layout).TakeBelow(c)
      ensures Relocated(old(View()), View(), c, d, n)
    {
      hide Ring, Chain, HeapImage.View, Relocated, Quiet, Layout.Coalesced;
      ghost var m, l := mem[..], layout;
      TakeBelowGood(l, c);
      d := AbsorbBelow(c);
      ghost var m2 := mem[..];
      MoveWords(4 * d + 2, 4 * c + 2, n);
      PayloadWrite(m2, mem[..], layout, d);
      TakeBelowView(m, m2, mem[..], l, c, n);
    }

    /** Strategy 5: a new block, a copy, and the old block freed; or nothing at all. */
    method MoveToNew(p: Ptr, size: nat, n: nat) returns (r: Ptr)
      requires Valid() && ready && Holds(p) && 0 < size <= SIZE_MAX && 0 < UmmBlocks(size)
      requires layout.Size(CellOf(p)) < UmmBlocks(size) && n == 4 * layout.Size(CellOf(p)) - 2
      modifies this, mem
      ensures Valid() && ready
      ensures !old(layout).Fits(UmmBlocks(size)) ==> r == Null && layout == old(layout) && mem[..] == old(mem[..])
      ensures old(layout).Fits(UmmBlocks(size)) ==>
        && Holds(r) && old(layout).BestFit(UmmBlocks(size), CellOf(r))
        && layout.Size(CellOf(r)) == UmmBlocks(size)
        && CellOf(r) in old(layout).free && layout == old(layout).Alloc(CellOf(r), UmmBlocks(size)).Release(CellOf(p))
        && Relocated(old(View()), View(), CellOf(p), CellOf(r), n)
    {
      hide Stores, HeapImage.View, Relocated, Layout.Coalesced, Layout.Fits, Layout.BestFit;
      ghost var l0, v0 := layout, View();
      r := Malloc(size);
      if r.Addr? {
        ghost var v := View();
        AllocGood(l0, CellOf(r), UmmBlocks(size));
        AllocNext(l0, CellOf(r), UmmBlocks(size), CellOf(p));
        CopyAndFree(p, r, n);
        CopyRelocated(v0, v, View(), CellOf(p), CellOf(r), n);
      }
    }

    method CopyAndFree(p: Ptr, r: Ptr, n: nat)
      requires Valid() && ready && Holds(p) && Holds(r) && p != r
      requires n <= 4 * layout.Size(CellOf(p)) - 2 && n <= 4 * layout.Size(CellOf(r)) - 2
      modifies `layout, mem
      ensures Valid() && Holds(r) && layout.Size(CellOf(r)) == old(layout).Size(CellOf(r))
      ensures layout == old(layout).Release(CellOf(p))
      ensures CellOf(p) in old(View()) && CellOf(r) in old(View()) && CellOf(r) in View()
      ensures View() == old(View())[CellOf(r) := View()[CellOf(r)]] - {CellOf(p)}
      ensures n <= |old(View())[CellOf(p)]| && n <= |View()[CellOf(r)]|
      ensures View()[CellOf(r)][..n] == old(View())[CellOf(p)][..n]
    {
      hide Chain, Ring, HeapImage.View, Layout.Release;
      ghost var m, l, c, d := mem[..], layout, CellOf(p), CellOf(r);
      MoveWords(r.off / 2, p.off / 2, n);
      CopyView(m, mem[..], l, c, d, n);
      ReleaseNext(l, c, d);
      Free(p);
    }

    /** Strategies 1 to 4: make the block around `c` large enough where it stands. */
    method Enlarge(c: nat, blocks: nat, blockSize: nat, nextBlockSize: nat, prevBlockSize: nat) returns (d: nat, newSize: nat)
      requires Valid() && ready && c in layout.Live()
      requires blockSize == layout.Size(c) && nextBlockSize == layout.FreeAbove(c) && prevBlockSize == layout.FreeBelow(c)
      requires blocks <= layout.Room(c)
      modifies `layout, mem
      ensures Valid() && d in layout.Live() && blocks <= newSize == layout.Size(d)
      ensures Relocated(old(View()), View(), c, d, 4 * blockSize - 2)
      ensures d == old(layout).Place(c, blocks) && layout == old(layout).Enlarged(c, blocks)
    {
      hide Stores, HeapImage.View, Relocated, Layout.Coalesced;
      ghost var l := layout;
      var curSize := 4 * blockSize - 2;
      d, newSize := c, blockSize;
      if blocks <= blockSize {
        SelfRelocated(c);
      } else if blocks <= blockSize + nextBlockSize {
        MergeUpGood(l, c);
        GrowUp(c);
        newSize := blockSize + nextBlockSize;
      } else if blocks <= prevBlockSize + blockSize {
        TakeBelowGood(l, c);
        d := TakeBelow(c, curSize);
        newSize := prevBlockSize + blockSize;
      } else {
        d := TakeBoth(c, curSize);
        newSize := prevBlockSize + blockSize + nextBlockSize;
      }
    }

    /** Strategy 4: absorb the free blocks on both sides. */
    method TakeBoth(c: nat, n: nat) returns (d: nat)
      requires Valid() && ready && c in layout.Live() && layout.Prev(c) in layout.free && n == 4 * layout.Size(c) - 2
      modifies `layout, mem
      ensures Valid() && d == old(layout).Prev(c) && d in layout.Live()
      ensures layout.Size(d) == old(layout).Room(c) && layout == old(layout).MergeUp(c).TakeBelowFree(c)
      ensures Relocated(old(View()), View(), c, d, n)
    {
      hide Stores, HeapImage.View, Relocated, Layout.Coalesced;
      ghost var l, v := layout, View();
      PrevFreeAfterMergeUp(l, c);
      MergeUpGood(l, c);
      GrowUp(c);
      ghost var v1 := View();
      TakeBelowGood(layout, c);
      d := TakeBelow(c, n);
      RelocatedTrans(v, v1, View(), c, c, d, n);
    }

    lemma SelfRelocated(c: nat)
      requires Valid() && c in layout.Live()
      ensures Relocated(View(), View(), c, c, 4 * layout.Size(c) - 2)
    {
    }

    /** The size of the live block `c`, and of its neighbours if they are free. */
    method Measure(c: nat) returns (blockSize: nat, nextBlockSize: nat, prevBlockSize: nat)
      requires Valid() && ready && c in layout.Live()
      ensures blockSize == layout.Size(c) && nextBlockSize == layout.FreeAbove(c) && prevBlockSize == layout.FreeBelow(c)
    {
      HeadersOf(mem[..], layout, c);
      blockSize := Nb(c) - c;
      nextBlockSize, prevBlockSize := 0, 0;
      if IsFree(Nb(Nb(c))) { nextBlockSize := BlockNo(Nb(Nb(c))) - Nb(c); }
      if IsFree(Nb(Pb(c))) { prevBlockSize := c - Pb(c); }
    }

    /** Strategies 1 to 4 with the final split: the block around `c` becomes exactly `blocks` cells. */
    method ResizeInPlace(c: nat, blocks: nat, blockSize: nat, nextBlockSize: nat, prevBlockSize: nat) returns (d: nat)
      requires Valid() && ready && c in layout.Live() && 0 < blocks <= layout.Room(c)
      requires blockSize == layout.Size(c) && nextBlockSize == layout.FreeAbove(c) && prevBlockSize == layout.FreeBelow(c)
      modifies `layout, mem
      ensures Valid() && d in layout.Live() && layout.Size(d) == blocks
      ensures Relocated(old(View()), View(), c, d, 4 * Min(blocks, blockSize) - 2)
      ensures d == old(layout).Place(c, blocks) && layout == old(layout).Enlarged(c, blocks).TrimmedTo(d, blocks)
    {
      hide Stores, HeapImage.View, Relocated, Layout.Coalesced;
      ghost var v, n := View(), 4 * Min(blocks, blockSize) - 2;
      var newSize;
      d, newSize := Enlarge(c, blocks, blockSize, nextBlockSize, prevBlockSize);
      ghost var v1 := View();
      RelocatedPrefix(v, v1, c, d, 4 * blockSize - 2, n);
      if blocks < newSize {
        TrimGood(layout, d, blocks);
        Trim(d, blocks);
        RelocatedPrefix(v1, View(), d, d, 4 * blocks - 2, n);
        RelocatedTrans(v, v1, View(), c, d, d, n);
      }
    }

    /** umm_realloc on a live block and a positive size. */
    method ReallocLive(p: Ptr, size: nat) returns (r: Ptr)
      requires Valid() && ready && Holds(p) && 0 < size <= SIZE_MAX && 0 < UmmBlocks(size)
      modifies this, mem
      ensures Valid() && ready
      ensures Reallocated(old(layout), old(View()), layout, View(), CellOf(p), UmmBlocks(size), r)
      ensures r.Null? ==> mem[..] == old(mem[..])
    {
      hide Stores, HeapImage.View, Relocated, Layout.Coalesced, Layout.Fits, Layout.BestFit;
      hide Layout.Enlarged, Layout.TrimmedTo, Layout.Place, Layout.Alloc, Layout.Release, Layout.FreeAbove, Layout.FreeBelow, UmmBlocks;
      var blocks := UmmBlocks(size);
      var c := CellOf(p);
      var blockSize, nextBlockSize, prevBlockSize := Measure(c);
      if blocks <= prevBlockSize + blockSize + nextBlockSize {
        var d := ResizeInPlace(c, blocks, blockSize, nextBlockSize, prevBlockSize);
        r := DataOf(d);
      } else {
        r := MoveToNew(p, size, 4 * blockSize - 2);
      }
    }

    /** umm_free on a block whose header points at itself: neither neighbour looks free, and the block is linked. */
    method FreeLooped(c: nat)
      requires Sized() && 0 < c < numblocks && Nf(0) < numblocks && Nb(c) == Pb(c) == c < 0x8000
      modifies mem
      ensures NBlock(mem[..], c) == c + 0x8000
      ensures forall x: nat :: x < c ==> NBlock(mem[..], x) == NBlock(old(mem[..]), x)
    {
      if IsFree(Nb(Nb(c))) { assert false; }
      if IsFree(Nb(Pb(c))) {
        assert false;
      } else {
        LinkWords(c);
      }
    }

    /** umm_realloc of a live block to a size whose cell count has wrapped to 0: strategy 1 applies, nothing is split
        off the block, and what is left is no heap. */
    method ReallocNothing(c: nat)
      requires Valid() && ready && c in layout.Live()
      modifies mem
      ensures forall l' :: !Stores(mem[..], l')
    {
      hide Ring, Layout.Coalesced;
      ghost var m := mem[..];
      HeadersOf(m, layout, c);
      HeadInHeap(m, layout);
      SplitBlock(c, 0, 0);
      SplitNothing(m, c);
      FreeLooped(c);
      forall l'
        ensures !Stores(mem[..], l')
      {
        LoopIsNoHeap(m, mem[..], layout, c, l');
      }
    }

    /** umm_realloc. As in umm_malloc, a count that has wrapped to 0 leaves no heap. */
    method Realloc(p: Ptr, size: nat) returns (r: Ptr)
      requires Valid() && size <= SIZE_MAX
      requires p.Null? || (ready && Holds(p))
      modifies this, mem
      ensures ready
      ensures size == 0 || UmmBlocks(size) != 0 ==> Valid()
      ensures p.Null? && size == 0 ==> r == Null && layout == old(layout) && View() == old(View())
      ensures p.Null? && size > 0 && UmmBlocks(size) != 0 ==>
        Allocated(old(layout), old(View()), layout, View(), UmmBlocks(size), r)
      ensures p.Addr? && size == 0 ==> r == Null && layout == old(layout).Release(CellOf(p)) && View() == old(View()) - {CellOf(p)}
      ensures p.Addr? && size > 0 && UmmBlocks(size) != 0 ==>
        Reallocated(old(layout), old(View()), layout, View(), CellOf(p), UmmBlocks(size), r)
      ensures size > 0 && UmmBlocks(size) == 0 ==>
        && layout == old(layout)
        && if p.Null? then Wrapped(old(mem[..]), layout, mem[..], r) else r == p && forall l' :: !Stores(mem[..], l')
      ensures old(ready) && r.Null? && size > 0 ==> mem[..] == old(mem[..])
    {
      hide Stores, Layout.Coalesced, HeapImage.View, Wrapped, Relocated;
      ghost var m := mem[..];
      if !ready { Init(); }
      if p.Null? {
        ghost var m1 := mem[..];
        r := Malloc(size);
        if size > 0 && UmmBlocks(size) == 0 && !old(ready) { WrappedFresh(m1, m, layout, mem[..], r); }
      } else if size == 0 {
        Free(p);
        r := Null;
      } else if UmmBlocks(size) == 0 {
        ReallocNothing(CellOf(p));
        r := p;
      } else {
        r := ReallocLive(p, size);
      }
    }

    /** memset of `bytes` zero bytes; an odd count clears the low byte of the last word. */
    method ClearBytes(lo: nat, bytes: nat)
      requires lo + (bytes + 1) / 2 <= mem.Length
      modifies mem
      ensures forall i :: 0 <= i < mem.Length && !(lo <= i < lo + (bytes + 1) / 2) ==> mem[i] == old(mem[i])
      ensures forall i :: lo <= i < lo + bytes / 2 ==> mem[i] == 0
      ensures bytes % 2 == 1 ==> mem[lo + bytes / 2] % 0x100 == 0
    {
      Clear(lo, lo + bytes / 2);
      if bytes % 2 == 1 {
        mem[lo + bytes / 2] := mem[lo + bytes / 2] / 0x100 * 0x100;
      }
    }

    method ZeroPayload(p: Ptr, bytes: nat)
      requires Valid() && ready && Holds(p) && (bytes + 1) / 2 <= 4 * layout.Size(CellOf(p)) - 2
      modifies mem
      ensures Valid()
      ensures |View()[CellOf(p)]| == 4 * layout.Size(CellOf(p)) - 2
      ensures View() == old(View())[CellOf(p) := View()[CellOf(p)]]
      ensures ZeroBytes(View()[CellOf(p)], bytes)
    {
      hide Chain, Ring, ZeroBytes, Layout.Coalesced;
      ghost var m, c := mem[..], CellOf(p);
      ClearBytes(p.off / 2, bytes);
      ZeroView(m, mem[..], layout, c, bytes);
    }

    /** umm_calloc. A larger total is served only if it cannot be: clearing it would leave the heap. */
    method Calloc(num: nat, itemSize: nat) returns (p: Ptr)
      requires Valid() && num <= SIZE_MAX && itemSize <= SIZE_MAX
      requires var total := CallocTotal(num, itemSize);
        total <= MAX_REQUEST || (UmmBlocks(total) != 0 && !layout.Fits(UmmBlocks(total)))
      modifies this, mem
      ensures Valid() && ready
      ensures var total := CallocTotal(num, itemSize);
        if total == 0 then p == Null && layout == old(layout) && View() == old(View())
        else
          && Allocated(old(layout), old(View()), layout, View(), UmmBlocks(total), p)
          && (p.Addr? ==> ZeroBytes(View()[CellOf(p)], total))
      ensures 0 < itemSize * num <= MAX_REQUEST && p.Addr? ==> ZeroBytes(View()[CellOf(p)], itemSize * num)
    {
      hide Stores, HeapImage.View, Layout.Coalesced, Layout.Fits, Layout.BestFit, ZeroBytes;
      var total := CallocTotal(num, itemSize);
      if total <= MAX_REQUEST { BlocksLeast(total, 1); }
      BlocksSuffice(total);
      CallocExact(num, itemSize);
      ghost var l := layout;
      p := Malloc(total);
      if p.Addr? {
        ghost var c, v1 := CellOf(p), View();
        AllocGood(l, c, UmmBlocks(total));
        ZeroPayload(p, total);
        assert View() - {c} == v1 - {c};
      }
    }
  }
}
