/**
 How a layout is stored in the heap's words. Cell `b` is the four 16-bit words at
 4b: the next block (with the free flag in bit 15), the previous block, and two words
 that are the free-list links of a free block and the first payload words of a used one.
 */
module HeapImage {
  import opened HeapLayout

  type Word = w: int | 0 <= w < 0x10000
  const FREELIST_MASK: Word := 0x8000

  /** `w & UMM_BLOCKNO_MASK`. */
  function BlockNo(w: Word): (r: Word) {
    w % 0x8000
  }

  /** `w & UMM_FREELIST_MASK`, as a truth value. */
  predicate IsFree(w: Word) {
    0x8000 <= w
  }

  /** `w | UMM_FREELIST_MASK`. */
  function MarkFree(w: Word): (r: Word) {
    if IsFree(w) then w else w + 0x8000
  }

  type Image = seq<Word>

  // ----- the four words of a cell

  function NBlock(m: Image, b: nat): (w: Word)
    requires 4 * b + 3 < |m|
  {
    m[4 * b]
  }

  function PBlock(m: Image, b: nat): (w: Word)
    requires 4 * b + 3 < |m|
  {
    m[4 * b + 1]
  }

  function NFree(m: Image, b: nat): (w: Word)
    requires 4 * b + 3 < |m|
  {
    m[4 * b + 2]
  }

  function PFree(m: Image, b: nat): (w: Word)
    requires 4 * b + 3 < |m|
  {
    m[4 * b + 3]
  }

  function PutNBlock(m: Image, b: nat, w: Word): (r: Image)
    requires 4 * b + 3 < |m|
    ensures |r| == |m| && NBlock(r, b) == w
    ensures forall x: nat {:trigger NBlock(r, x)} :: 4 * x + 3 < |m| && x != b ==> NBlock(r, x) == NBlock(m, x)
    ensures forall x: nat {:trigger PBlock(r, x)} :: 4 * x + 3 < |m| ==> PBlock(r, x) == PBlock(m, x)
    ensures forall x: nat {:trigger NFree(r, x)} :: 4 * x + 3 < |m| ==> NFree(r, x) == NFree(m, x)
    ensures forall x: nat {:trigger PFree(r, x)} :: 4 * x + 3 < |m| ==> PFree(r, x) == PFree(m, x)
  {
    m[4 * b := w]
  }

  function PutPBlock(m: Image, b: nat, w: Word): (r: Image)
    requires 4 * b + 3 < |m|
    ensures |r| == |m| && PBlock(r, b) == w
    ensures forall x: nat {:trigger PBlock(r, x)} :: 4 * x + 3 < |m| && x != b ==> PBlock(r, x) == PBlock(m, x)
    ensures forall x: nat {:trigger NBlock(r, x)} :: 4 * x + 3 < |m| ==> NBlock(r, x) == NBlock(m, x)
    ensures forall x: nat {:trigger NFree(r, x)} :: 4 * x + 3 < |m| ==> NFree(r, x) == NFree(m, x)
    ensures forall x: nat {:trigger PFree(r, x)} :: 4 * x + 3 < |m| ==> PFree(r, x) == PFree(m, x)
  {
    m[4 * b + 1 := w]
  }

  function PutNFree(m: Image, b: nat, w: Word): (r: Image)
    requires 4 * b + 3 < |m|
    ensures |r| == |m| && NFree(r, b) == w
    ensures forall x: nat {:trigger NFree(r, x)} :: 4 * x + 3 < |m| && x != b ==> NFree(r, x) == NFree(m, x)
    ensures forall x: nat {:trigger NBlock(r, x)} :: 4 * x + 3 < |m| ==> NBlock(r, x) == NBlock(m, x)
    ensures forall x: nat {:trigger PBlock(r, x)} :: 4 * x + 3 < |m| ==> PBlock(r, x) == PBlock(m, x)
    ensures forall x: nat {:trigger PFree(r, x)} :: 4 * x + 3 < |m| ==> PFree(r, x) == PFree(m, x)
  {
    m[4 * b + 2 := w]
  }

  function PutPFree(m: Image, b: nat, w: Word): (r: Image)
    requires 4 * b + 3 < |m|
    ensures |r| == |m| && PFree(r, b) == w
    ensures forall x: nat {:trigger PFree(r, x)} :: 4 * x + 3 < |m| && x != b ==> PFree(r, x) == PFree(m, x)
    ensures forall x: nat {:trigger NBlock(r, x)} :: 4 * x + 3 < |m| ==> NBlock(r, x) == NBlock(m, x)
    ensures forall x: nat {:trigger PBlock(r, x)} :: 4 * x + 3 < |m| ==> PBlock(r, x) == PBlock(m, x)
    ensures forall x: nat {:trigger NFree(r, x)} :: 4 * x + 3 < |m| ==> NFree(r, x) == NFree(m, x)
  {
    m[4 * b + 3 := w]
  }

  /** The free list with its head, cell 0, at both ends. */
  function At(free: seq<nat>, i: int): (r: nat)
    requires 0 <= i <= |free| + 1
  {
    if i == 0 || i == |free| + 1 then 0 else free[i - 1]
  }

  /** The first header word of block `b`. */
  ghost function Header(l: Layout, b: nat): (w: Word)
    requires l.WellFormed() && b < l.last
  {
    l.Next(b) + if b in l.free then 0x8000 else 0
  }

  /** The header words spell the block chain and the free flags. */
  ghost predicate Chain(m: Image, l: Layout)
    requires l.WellFormed()
  {
    && |m| == 4 * (l.last + 1)
    && NBlock(m, l.last) == 0
    && (forall b: nat {:trigger NBlock(m, b)} :: b in l.blocks && b < l.last ==> NBlock(m, b) == Header(l, b))
    && (forall b: nat {:trigger PBlock(m, b)} :: b in l.blocks && 0 < b ==> PBlock(m, b) == l.Prev(b))
  }

  /** The link words of the free blocks and of cell 0 spell the free list, both ways round. */
  ghost predicate Ring(m: Image, free: seq<nat>)
    requires forall i :: 0 <= i < |free| ==> 4 * free[i] + 3 < |m|
    requires 4 <= |m|
  {
    forall i, j {:trigger At(free, i), At(free, j)} :: 0 <= i < j == i + 1 <= |free| + 1 ==>
      NFree(m, At(free, i)) == At(free, j) && PFree(m, At(free, j)) == At(free, i)
  }

  ghost predicate SameLinks(m: Image, m': Image) {
    && |m'| == |m|
    && (forall x: nat {:trigger NFree(m', x)} :: 4 * x + 3 < |m| ==> NFree(m', x) == NFree(m, x))
    && (forall x: nat {:trigger PFree(m', x)} :: 4 * x + 3 < |m| ==> PFree(m', x) == PFree(m, x))
  }

  ghost predicate SameHeaders(m: Image, m': Image) {
    && |m'| == |m|
    && (forall x: nat {:trigger NBlock(m', x)} :: 4 * x + 3 < |m| ==> NBlock(m', x) == NBlock(m, x))
    && (forall x: nat {:trigger PBlock(m', x)} :: 4 * x + 3 < |m| ==> PBlock(m', x) == PBlock(m, x))
  }

  lemma RingFrame(m: Image, m': Image, l: Layout)
    requires l.WellFormed() && |m| == 4 * (l.last + 1) && Ring(m, l.free) && SameLinks(m, m')
    ensures Ring(m', l.free)
  {
  }

  lemma ChainFrame(m: Image, m': Image, l: Layout)
    requires l.WellFormed() && Chain(m, l) && SameHeaders(m, m')
    ensures Chain(m', l)
  {
  }

  ghost predicate Stores(m: Image, l: Layout) {
    l.WellFormed() && |m| == 4 * (l.last + 1) && Chain(m, l) && Ring(m, l.free)
  }

  /** Rewriting two header words drops the start `x`, whose block the one below absorbs. */
  lemma DropStartChain(m: Image, m': Image, l: Layout, l': Layout, x: nat, w: Word)
    requires l.WellFormed() && l'.WellFormed() && Chain(m, l)
    requires x in l.blocks && 1 < x < l.last
    requires l' == l.(blocks := l.blocks - {x}) && x !in l.free
    requires w == l.Next(x) + if l.Prev(x) in l.free then 0x8000 else 0
    requires m' == PutPBlock(PutNBlock(m, l.Prev(x), w), l.Next(x), l.Prev(x))
    ensures Chain(m', l')
  {
    DropStart(l, l', x);
    forall b | b in l'.blocks && b < l'.last
      ensures NBlock(m', b) == Header(l', b)
    {
      assert l'.Next(b) == if b == l.Prev(x) then l.Next(x) else l.Next(b);
      assert NBlock(m, b) == Header(l, b);
    }
    forall b | b in l'.blocks && 0 < b
      ensures PBlock(m', b) == l'.Prev(b)
    {
      assert PBlock(m, b) == l.Prev(b);
    }
  }

  /** The four header writes of a split; the new block `x` is free if `l'` says so. */
  lemma AddStartChain(m: Image, m': Image, l: Layout, l': Layout, c: nat, x: nat)
    requires l.WellFormed() && l'.WellFormed() && Chain(m, l)
    requires c in l.blocks && c < l.last && c < x < l.Next(c)
    requires l'.last == l.last && l'.blocks == l.blocks + {x} && c !in l'.free
    requires forall b :: b in l.blocks && b != c ==> (b in l'.free <==> b in l.free)
    requires var w: Word := l.Next(c) + if x in l'.free then 0x8000 else 0;
      m' == PutNBlock(PutPBlock(PutPBlock(PutNBlock(m, x, w), x, c), l.Next(c), x), c, x)
    ensures Chain(m', l')
  {
    AddStart(l, l', c, x);
    forall b | b in l'.blocks && b < l'.last
      ensures NBlock(m', b) == Header(l', b)
    {
      if b != x && b != c { assert NBlock(m, b) == Header(l, b) && l'.Next(b) == l.Next(b); }
    }
    forall b | b in l'.blocks && 0 < b
      ensures PBlock(m', b) == l'.Prev(b)
    {
      if b != x { assert PBlock(m, b) == l.Prev(b); }
    }
  }

  /** Setting or clearing the flag of one block. */
  lemma FlagChain(m: Image, m': Image, l: Layout, l': Layout, c: nat)
    requires l.WellFormed() && l'.WellFormed() && Chain(m, l)
    requires c in l.blocks && c < l.last
    requires l'.last == l.last && l'.blocks == l.blocks
    requires forall b :: b in l.blocks && b != c ==> (b in l'.free <==> b in l.free)
    requires |m'| == |m| && NBlock(m', c) == Header(l', c)
    requires forall b: nat {:trigger NBlock(m', b)} :: b <= l.last && b != c ==> NBlock(m', b) == NBlock(m, b)
    requires forall b: nat {:trigger PBlock(m', b)} :: b <= l.last ==> PBlock(m', b) == PBlock(m, b)
    ensures Chain(m', l')
  {
  }

  // ----- free-list surgery

  /** The ring visits no cell twice. */
  lemma AtDistinct(l: Layout, i: int, j: int)
    requires l.WellFormed() && 0 <= i <= |l.free| + 1 && 0 <= j <= |l.free| + 1 && i != j
    requires At(l.free, i) == At(l.free, j)
    ensures At(l.free, i) == 0 && (i == 0 || j == 0) && (i == |l.free| + 1 || j == |l.free| + 1)
  {
  }

  lemma AtRemoved(free: seq<nat>, k: nat, i: int)
    requires k < |free| && 0 <= i <= |free|
    ensures At(RemoveAt(free, k), i) == At(free, if i <= k then i else i + 1)
  {
  }

  lemma UnlinkRing(m: Image, m': Image, l: Layout, k: nat)
    requires l.WellFormed() && |m| == 4 * (l.last + 1) && Ring(m, l.free) && k < |l.free|
    requires m' == PutPFree(PutNFree(m, At(l.free, k), At(l.free, k + 2)), At(l.free, k + 2), At(l.free, k))
    ensures Ring(m', RemoveAt(l.free, k))
  {
    var free, free' := l.free, RemoveAt(l.free, k);
    forall i, j | 0 <= i < j == i + 1 <= |free'| + 1
      ensures NFree(m', At(free', i)) == At(free', j) && PFree(m', At(free', j)) == At(free', i)
    {
      AtRemoved(free, k, i);
      AtRemoved(free, k, j);
      if i != k {
        var i0, j0 := if i <= k then i else i + 1, if j <= k then j else j + 1;
        if At(free, i0) == At(free, k) { AtDistinct(l, i0, k); }
        if At(free, j0) == At(free, k + 2) { AtDistinct(l, j0, k + 2); }
      }
    }
  }

  /** Replacing a list member by a cell `x` that is not on the list. */
  lemma CarveRing(m: Image, m': Image, l: Layout, k: nat, x: nat)
    requires l.WellFormed() && |m| == 4 * (l.last + 1) && Ring(m, l.free) && k < |l.free|
    requires 0 < x < l.last && x !in l.free
    requires m' == PutNFree(PutPFree(PutPFree(PutNFree(m,
                     At(l.free, k), x), x, At(l.free, k)), At(l.free, k + 2), x), x, At(l.free, k + 2))
    ensures Ring(m', l.free[k := x])
  {
    var free, free' := l.free, l.free[k := x];
    forall i, j | 0 <= i < j == i + 1 <= |free'| + 1
      ensures NFree(m', At(free', i)) == At(free', j) && PFree(m', At(free', j)) == At(free', i)
    {
      assert At(free', i) == if i == k + 1 then x else At(free, i);
      assert At(free', j) == if j == k + 1 then x else At(free, j);
      if i != k && At(free, i) == At(free, k) { AtDistinct(l, i, k); }
      if j != k + 2 && At(free, j) == At(free, k + 2) { AtDistinct(l, j, k + 2); }
    }
  }

  /** Adding a cell at the head of the list. */
  lemma LinkRing(m: Image, m': Image, l: Layout, c: nat)
    requires l.WellFormed() && |m| == 4 * (l.last + 1) && Ring(m, l.free)
    requires 0 < c < l.last && c !in l.free
    requires m' == PutNFree(PutPFree(PutNFree(PutPFree(m, At(l.free, 1), c), c, At(l.free, 1)), c, 0), 0, c)
    ensures Ring(m', [c] + l.free)
  {
    var free, free' := l.free, [c] + l.free;
    forall i, j | 0 <= i < j == i + 1 <= |free'| + 1
      ensures NFree(m', At(free', i)) == At(free', j) && PFree(m', At(free', j)) == At(free', i)
    {
      assert 2 <= i ==> At(free', i) == At(free, i - 1);
      assert 2 <= j ==> At(free', j) == At(free, j - 1);
      if 3 <= j && At(free, j - 1) == At(free, 1) { AtDistinct(l, j - 1, 1); }
    }
  }

  // ----- payloads

  /** The words a client may use in block `b`: everything after its header. */
  ghost function Payload(m: Image, l: Layout, b: nat): (s: seq<Word>)
    requires l.WellFormed() && |m| == 4 * (l.last + 1) && b < l.last
    ensures |s| == 4 * l.Size(b) - 2
  {
    m[4 * b + 2..4 * l.Next(b)]
  }

  lemma PayloadPrefix(m: Image, l: Layout, b: nat, n: nat)
    requires l.WellFormed() && |m| == 4 * (l.last + 1) && b < l.last && n <= 4 * l.Size(b) - 2
    ensures Payload(m, l, b)[..n] == m[4 * b + 2..4 * b + 2 + n]
  {
  }

  /** What the clients see: each live block with its words. */
  ghost function View(m: Image, l: Layout): (v: map<nat, seq<Word>>)
    requires l.WellFormed() && |m| == 4 * (l.last + 1)
    ensures v.Keys == l.Live()
  {
    map b | b in l.Live() :: Payload(m, l, b)
  }

  /** The payload of every live block of `l`, except those in `but`, is the same in both images. */
  ghost predicate Quiet(m: Image, m': Image, l: Layout, but: set<nat>)
    requires l.WellFormed() && |m| == 4 * (l.last + 1) == |m'|
  {
    forall b {:trigger l.Next(b)} :: b in l.Live() && b !in but ==>
      forall i {:trigger m'[i]} :: 4 * b + 2 <= i < 4 * l.Next(b) ==> m'[i] == m[i]
  }

  /** A header word of a block, or any word of a free block or of cell 0. */
  ghost predicate Bookkeeping(l: Layout, i: int) {
    0 <= i && i / 4 in l.blocks && (i % 4 < 2 || i / 4 in l.free || i / 4 == 0)
  }

  lemma HeaderWords(l: Layout, b: nat)
    requires b in l.blocks
    ensures Bookkeeping(l, 4 * b) && Bookkeeping(l, 4 * b + 1)
  {
  }

  lemma LinkWords(l: Layout, b: nat)
    requires b in l.blocks && (b == 0 || b in l.free)
    ensures Bookkeeping(l, 4 * b + 2) && Bookkeeping(l, 4 * b + 3)
  {
  }

  lemma QuietWrites(m: Image, m': Image, l: Layout, written: set<int>)
    requires l.WellFormed() && |m| == 4 * (l.last + 1) == |m'|
    requires forall i :: 0 <= i < |m| && i !in written ==> m'[i] == m[i]
    requires forall i :: i in written ==> Bookkeeping(l, i)
    ensures Quiet(m, m', l, {})
  {
  }

  lemma QuietTrans(m: Image, m1: Image, m2: Image, l: Layout, l1: Layout)
    requires l.WellFormed() && |m| == 4 * (l.last + 1) == |m1| == |m2|
    requires l1.WellFormed() && l1.last == l.last
    requires forall b {:trigger l.Next(b)} :: b in l.Live() ==> b in l1.Live() && l1.Next(b) == l.Next(b)
    requires Quiet(m, m1, l, {}) && Quiet(m1, m2, l1, {})
    ensures Quiet(m, m2, l, {})
  {
  }

  /** The links of the list member `c`. */
  lemma LinksOf(m: Image, l: Layout, c: nat)
    requires Stores(m, l) && c in l.free
    ensures var k := IndexOf(l.free, c); PFree(m, c) == At(l.free, k) && NFree(m, c) == At(l.free, k + 2)
    ensures PFree(m, c) != c && PFree(m, c) <= l.last && NFree(m, c) <= l.last
    ensures PFree(m, c) in l.free || PFree(m, c) == 0
    ensures NFree(m, c) in l.free || NFree(m, c) == 0
  {
    var k := IndexOf(l.free, c);
    assert At(l.free, k + 1) == c;
    assert At(l.free, k) in l.free || At(l.free, k) == 0;
    assert At(l.free, k + 2) in l.free || At(l.free, k + 2) == 0;
  }

  // ----- one lemma for each step: the words written store the new layout

  ghost function UnlinkImage(m: Image, c: nat): (r: Image)
    requires 4 * c + 3 < |m| && 4 * PFree(m, c) + 3 < |m| && 4 * NFree(m, c) + 3 < |m|
  {
    var m1 := PutPFree(PutNFree(m, PFree(m, c), NFree(m, c)), NFree(m, c), PFree(m, c));
    PutNBlock(m1, c, BlockNo(NBlock(m1, c)))
  }

  lemma UnlinkStores(m: Image, m': Image, l: Layout, c: nat)
    requires l.Good() && Stores(m, l) && c in l.free
    requires 4 * PFree(m, c) + 3 < |m| && 4 * NFree(m, c) + 3 < |m| && m' == UnlinkImage(m, c)
    ensures Stores(m', l.Unlink(c))
  {
    hide Layout.Coalesced;
    var l', k := l.Unlink(c), IndexOf(l.free, c);
    UnlinkGood(l, c);
    LinksOf(m, l, c);
    var m1 := PutPFree(PutNFree(m, PFree(m, c), NFree(m, c)), NFree(m, c), PFree(m, c));
    UnlinkRing(m, m1, l, k);
    RingFrame(m1, m', l');
    HeaderOfFree(m, l, c);
    FlagChain(m, m', l, l', c);
  }

  lemma UnlinkQuiet(m: Image, m': Image, l: Layout, c: nat)
    requires Stores(m, l) && c in l.free
    requires 4 * PFree(m, c) + 3 < |m| && 4 * NFree(m, c) + 3 < |m| && m' == UnlinkImage(m, c)
    ensures Quiet(m, m', l, {})
  {
    LinksOf(m, l, c);
    QuietWrites(m, m', l, {4 * PFree(m, c) + 2, 4 * NFree(m, c) + 3, 4 * c});
  }

  /** The block chain never stops before its end, so the first header word of an inner block is not zero. */
  lemma HeaderOf(m: Image, l: Layout, c: nat)
    requires Stores(m, l) && (c in l.free || c == 0)
    ensures BlockNo(NBlock(m, c)) != 0 && c < l.last
  {
  }

  lemma HeaderOfFree(m: Image, l: Layout, c: nat)
    requires Stores(m, l) && c in l.free
    ensures BlockNo(NBlock(m, c)) == l.Next(c)
  {
  }

  /** The header words of a used block and of its neighbours. */
  lemma HeadersOf(m: Image, l: Layout, c: nat)
    requires Stores(m, l) && c in l.Live()
    ensures NBlock(m, c) == l.Next(c) && PBlock(m, c) == l.Prev(c)
    ensures IsFree(NBlock(m, l.Next(c))) <==> l.Next(c) in l.free
    ensures IsFree(NBlock(m, l.Prev(c))) <==> l.Prev(c) in l.free
    ensures l.Next(c) < l.last ==> BlockNo(NBlock(m, l.Next(c))) == l.Next(l.Next(c))
    ensures PBlock(m, l.Next(c)) == c
  {
  }

  /** The last two writes of umm_assimilate_up: block `c` absorbs the used block above it. */
  lemma AbsorbUpStores(m: Image, m': Image, l: Layout, c: nat)
    requires l.Good() && Stores(m, l) && c in l.Live() && l.Next(c) in l.Live()
    requires var n := l.Next(c); m' == PutNBlock(PutPBlock(m, l.Next(n), c), c, l.Next(n))
    ensures Stores(m', l.(blocks := l.blocks - {l.Next(c)}))
    ensures Quiet(m, m', l, {})
  {
    var n := l.Next(c);
    PrevOfNext(l, c);
    MergeDownGood(l, n);
    var m2 := PutPBlock(PutNBlock(m, c, l.Next(n)), l.Next(n), c);
    assert m' == m2;
    DropStartChain(m, m', l, l.MergeDown(n), n, l.Next(n));
    QuietWrites(m, m', l, {4 * c, 4 * l.Next(n) + 1});
  }

  lemma MergeDownStores(m: Image, m': Image, l: Layout, c: nat, w: Word)
    requires l.Good() && Stores(m, l) && c in l.Live()
    requires l.Prev(c) in l.Live() || (l.Prev(c) in l.free && l.Next(c) !in l.free)
    requires w == l.Next(c) + if l.Prev(c) in l.free then 0x8000 else 0
    requires m' == PutPBlock(PutNBlock(m, l.Prev(c), w), l.Next(c), l.Prev(c))
    ensures Stores(m', l.MergeDown(c))
    ensures Quiet(m, m', l, {})
  {
    MergeDownGood(l, c);
    DropStartChain(m, m', l, l.MergeDown(c), c, w);
    QuietWrites(m, m', l, {4 * l.Prev(c), 4 * l.Next(c) + 1});
  }

  /** The four header writes of umm_split_block. */
  ghost function SplitImage(m: Image, c: nat, k: nat, mask: Word): (r: Image)
    requires c + k < 0x8000 && 4 * (c + k) + 3 < |m| && 4 * BlockNo(NBlock(m, c)) + 3 < |m| && mask in {0, 0x8000}
    ensures SameLinks(m, r)
    ensures forall i {:trigger r[i]} ::
      0 <= i < |m| && i !in {4 * (c + k), 4 * (c + k) + 1, 4 * BlockNo(NBlock(m, c)) + 1, 4 * c} ==> r[i] == m[i]
  {
    var n := BlockNo(NBlock(m, c));
    PutNBlock(PutPBlock(PutPBlock(PutNBlock(m, c + k, n + mask), c + k, c), n, c + k), c, c + k)
  }

  lemma SplitStores(m: Image, m': Image, l: Layout, c: nat, k: nat)
    requires l.Good() && Stores(m, l) && c in l.Live() && 0 < k < l.Size(c)
    requires 4 * BlockNo(NBlock(m, c)) + 3 < |m| && m' == SplitImage(m, c, k, 0)
    ensures Stores(m', l.Split(c, k))
  {
    hide Layout.Coalesced, Ring;
    SplitGood(l, c, k);
    HeadersOf(m, l, c);
    hide Chain;
    AddStartChain(m, m', l, l.Split(c, k), c, c + k);
    RingFrame(m, m', l);
  }

  lemma SplitQuiet(m: Image, m': Image, l: Layout, c: nat, k: nat)
    requires l.Good() && Stores(m, l) && c in l.Live() && 0 < k < l.Size(c)
    requires 4 * BlockNo(NBlock(m, c)) + 3 < |m| && m' == SplitImage(m, c, k, 0)
    ensures Quiet(m, m', l.Split(c, k), {c + k})
  {
    var l' := l.Split(c, k);
    SplitGood(l, c, k);
    HeadersOf(m, l, c);
    SplitImageQuiet(m, l', c, k, 0);
  }

  /** Carving: after the split, the upper part takes over the links of `c`. */
  ghost function CarveImage(m: Image, c: nat, k: nat): (r: Image)
    requires c + k < 0x8000 && 4 * (c + k) + 3 < |m|
    requires 4 * BlockNo(NBlock(m, c)) + 3 < |m| && 4 * PFree(m, c) + 3 < |m| && 4 * NFree(m, c) + 3 < |m|
    ensures |r| == |m|
  {
    CarveLinks(SplitImage(m, c, k, 0x8000), c, c + k)
  }

  ghost function CarveLinks(m: Image, c: nat, x: nat): (r: Image)
    requires x < 0x8000 && 4 * x + 3 < |m| && 4 * c + 3 < |m|
    requires 4 * PFree(m, c) + 3 < |m| && 4 * NFree(m, c) + 3 < |m|
    ensures SameHeaders(m, r)
    ensures forall i {:trigger r[i]} ::
      0 <= i < |m| && i !in {4 * PFree(m, c) + 2, 4 * x + 3, 4 * NFree(m, c) + 3, 4 * x + 2} ==> r[i] == m[i]
  {
    var p, n := PFree(m, c), NFree(m, c);
    PutNFree(PutPFree(PutPFree(PutNFree(m, p, x), x, p), n, x), x, n)
  }

  lemma CarveChain(m: Image, m1: Image, l: Layout, c: nat, k: nat)
    requires l.Good() && Stores(m, l) && c in l.free && 0 < k < l.Size(c)
    requires 4 * BlockNo(NBlock(m, c)) + 3 < |m| && m1 == SplitImage(m, c, k, 0x8000)
    ensures l.Carve(c, k).WellFormed() && Chain(m1, l.Carve(c, k)) && Ring(m1, l.free)
  {
    hide Ring, Layout.Coalesced;
    CarveShape(l, c, k);
    assert NBlock(m, c) == Header(l, c);
    hide Chain;
    AddStartChain(m, m1, l, l.Carve(c, k), c, c + k);
    RingFrame(m, m1, l);
  }

  lemma CarveStores(m: Image, m': Image, l: Layout, c: nat, k: nat)
    requires l.Good() && Stores(m, l) && c in l.free && 0 < k < l.Size(c)
    requires 4 * BlockNo(NBlock(m, c)) + 3 < |m| && 4 * PFree(m, c) + 3 < |m| && 4 * NFree(m, c) + 3 < |m|
    requires m' == CarveImage(m, c, k)
    ensures Stores(m', l.Carve(c, k))
  {
    var m1 := SplitImage(m, c, k, 0x8000);
    CarveChain(m, m1, l, c, k);
    CarveShape(l, c, k);
    LinksOf(m, l, c);
    CarveRing(m1, m', l, IndexOf(l.free, c), c + k);
    ChainFrame(m1, m', l.Carve(c, k));
  }

  lemma SplitImageQuiet(m: Image, l: Layout, c: nat, k: nat, mask: Word)
    requires l.WellFormed() && |m| == 4 * (l.last + 1) && mask in {0, 0x8000} && c + k < l.last
    requires {c, c + k, BlockNo(NBlock(m, c))} <= l.blocks
    ensures Quiet(m, SplitImage(m, c, k, mask), l, {})
  {
    hide Bookkeeping, Quiet, SplitImage;
    var n: nat := BlockNo(NBlock(m, c));
    HeaderWords(l, c);
    HeaderWords(l, c + k);
    HeaderWords(l, n);
    QuietWrites(m, SplitImage(m, c, k, mask), l, {4 * (c + k), 4 * (c + k) + 1, 4 * n + 1, 4 * c});
  }

  lemma CarveLinksQuiet(m: Image, l: Layout, c: nat, x: nat)
    requires l.WellFormed() && |m| == 4 * (l.last + 1) && c in l.blocks && x in l.free
    requires (PFree(m, c) == 0 || PFree(m, c) in l.free) && (NFree(m, c) == 0 || NFree(m, c) in l.free)
    ensures Quiet(m, CarveLinks(m, c, x), l, {})
  {
    hide Bookkeeping, Quiet, CarveLinks;
    LinkWords(l, x);
    LinkWords(l, PFree(m, c));
    LinkWords(l, NFree(m, c));
    QuietWrites(m, CarveLinks(m, c, x), l, {4 * x + 2, 4 * x + 3, 4 * PFree(m, c) + 2, 4 * NFree(m, c) + 3});
  }

  lemma CarveWrites(m: Image, m': Image, l: Layout, c: nat, k: nat)
    requires l.Good() && Stores(m, l) && c in l.free && 0 < k < l.Size(c)
    requires 4 * BlockNo(NBlock(m, c)) + 3 < |m| && 4 * PFree(m, c) + 3 < |m| && 4 * NFree(m, c) + 3 < |m|
    requires m' == CarveImage(m, c, k)
    ensures l.Carve(c, k).WellFormed() && Quiet(m, m', l.Carve(c, k), {})
  {
    hide SplitImage, CarveLinks, Layout.Coalesced, Chain, Ring;
    var l', x, m1 := l.Carve(c, k), c + k, SplitImage(m, c, k, 0x8000);
    CarveShape(l, c, k);
    HeaderOfFree(m, l, c);
    LinksOf(m, l, c);
    SplitImageQuiet(m, l', c, k, 0x8000);
    CarveLinksQuiet(m1, l', c, x);
    QuietTrans(m, m1, m', l', l');
  }

  lemma CarveQuiet(m: Image, m': Image, l: Layout, c: nat, k: nat)
    requires l.Good() && Stores(m, l) && c in l.free && 0 < k < l.Size(c)
    requires 4 * BlockNo(NBlock(m, c)) + 3 < |m| && 4 * PFree(m, c) + 3 < |m| && 4 * NFree(m, c) + 3 < |m|
    requires m' == CarveImage(m, c, k)
    ensures Quiet(m, m', l, {})
  {
    var l' := l.Carve(c, k);
    CarveWrites(m, m', l, c, k);
    CarveGood(l, c, k);
    forall b, i | b in l.Live() && 4 * b + 2 <= i < 4 * l.Next(b)
      ensures m'[i] == m[i]
    {
      AllocNext(l, c, k, b);
      assert b in l'.Live() && l'.Next(b) == l.Next(b);
    }
  }

  lemma ChainNext(m: Image, l: Layout, b: nat)
    requires l.WellFormed() && Chain(m, l) && b in l.blocks && b < l.last
    ensures BlockNo(NBlock(m, b)) == l.Next(b)
  {
    assert NBlock(m, b) == Header(l, b);
  }

  /** Up to `c`, a chain whose headers below `c` are unchanged passes through the same starts. */
  lemma {:induction false} SamePrefix(m: Image, m': Image, l: Layout, l': Layout, c: nat, b: nat)
    requires l.WellFormed() && Chain(m, l) && l'.WellFormed() && Chain(m', l') && l'.last == l.last
    requires c in l.blocks && b in l.blocks && b <= c < l.last && 4 * c + 3 < |m| == |m'|
    requires forall x: nat :: x < c ==> NBlock(m', x) == NBlock(m, x)
    ensures b in l'.blocks
    decreases b
  {
    hide Chain;
    if b != 0 {
      var a := l.Prev(b);
      SamePrefix(m, m', l, l', c, a);
      NextOfPrev(l, b);
      ChainNext(m, l, a);
      ChainNext(m', l', a);
    }
  }

  /** An image whose header of `c` points at `c`, and whose headers below are those of a heap, is no heap. */
  lemma LoopIsNoHeap(m: Image, m': Image, l: Layout, c: nat, l': Layout)
    requires Stores(m, l) && |m'| == |m| && c in l.blocks && c < l.last && BlockNo(NBlock(m', c)) == c
    requires forall x: nat :: x < c ==> NBlock(m', x) == NBlock(m, x)
    ensures !Stores(m', l')
  {
    hide Chain, Ring;
    if Stores(m', l') {
      SamePrefix(m, m', l, l', c, c);
      ChainNext(m', l', c);
    }
  }

  lemma CarveNothingHeaders(m: Image, c: nat)
    requires c < 0x8000 && 4 * c + 3 < |m|
    requires 4 * BlockNo(NBlock(m, c)) + 3 < |m| && 4 * PFree(m, c) + 3 < |m| && 4 * NFree(m, c) + 3 < |m|
    ensures NBlock(CarveImage(m, c, 0), c) == c
    ensures forall x: nat :: x < c ==> NBlock(CarveImage(m, c, 0), x) == NBlock(m, x)
  {
    hide CarveLinks;
  }

  /** A request whose cell count is 0 ends the block chain in a loop: no layout is stored afterwards. */
  lemma CarveNothingBreaks(m: Image, l: Layout, c: nat)
    requires Stores(m, l) && c in l.free
    requires 4 * BlockNo(NBlock(m, c)) + 3 < |m| && 4 * PFree(m, c) + 3 < |m| && 4 * NFree(m, c) + 3 < |m|
    ensures forall l' :: !Stores(CarveImage(m, c, 0), l')
  {
    hide Chain, Ring, CarveImage;
    CarveNothingHeaders(m, c);
    forall l'
      ensures !Stores(CarveImage(m, c, 0), l')
    {
      LoopIsNoHeap(m, CarveImage(m, c, 0), l, c, l');
    }
  }

  /** The first member of the free list, or 0, is a cell of the heap. */
  lemma HeadInHeap(m: Image, l: Layout)
    requires Stores(m, l)
    ensures NFree(m, 0) < l.last
  {
    assert At(l.free, 0) == 0 && NFree(m, 0) == At(l.free, 1);
  }

  lemma SplitNothing(m: Image, c: nat)
    requires c < 0x8000 && 4 * c + 3 < |m| && 4 * BlockNo(NBlock(m, c)) + 3 < |m| && BlockNo(NBlock(m, c)) != c
    ensures var m' := SplitImage(m, c, 0, 0);
      && NBlock(m', c) == PBlock(m', c) == c && NFree(m', 0) == NFree(m, 0)
      && forall x: nat :: x < c ==> NBlock(m', x) == NBlock(m, x)
  {
  }

  /** With an empty free list, unlinking its head changes nothing. */
  lemma UnlinkHead(m: Image, l: Layout)
    requires Stores(m, l) && l.free == []
    ensures NFree(m, 0) == PFree(m, 0) == 0 && UnlinkImage(m, 0) == m
  {
    assert At(l.free, 0) == 0 && At(l.free, 1) == 0;
    assert NBlock(m, 0) == Header(l, 0);
  }

  /** Putting the used block `c` at the head of the free list. */
  lemma LinkStores(m: Image, m1: Image, m': Image, l: Layout, c: nat)
    requires l.Good() && Stores(m, l) && c in l.Live() && l.Next(c) !in l.free && l.Prev(c) !in l.free
    requires NFree(m, 0) <= l.last
    requires m1 == PutNFree(PutPFree(PutNFree(PutPFree(m, NFree(m, 0), c), c, NFree(m, 0)), c, 0), 0, c)
    requires m' == PutNBlock(m1, c, l.Next(c) + 0x8000)
    ensures Stores(m', l.(free := [c] + l.free))
  {
    var l' := l.(free := [c] + l.free);
    LinkGood(l, c);
    assert At(l.free, 0) == 0 && NFree(m, 0) == At(l.free, 1);
    LinkRing(m, m1, l, c);
    FlagChain(m, m', l, l', c);
  }

  lemma LinkQuiet(m: Image, m1: Image, m': Image, l: Layout, c: nat)
    requires l.Good() && Stores(m, l) && c in l.Live() && l.Next(c) !in l.free && l.Prev(c) !in l.free
    requires NFree(m, 0) <= l.last
    requires m1 == PutNFree(PutPFree(PutNFree(PutPFree(m, NFree(m, 0), c), c, NFree(m, 0)), c, 0), 0, c)
    requires m' == PutNBlock(m1, c, l.Next(c) + 0x8000)
    ensures Quiet(m, m', l, {c})
  {
    var l' := l.(free := [c] + l.free);
    LinkGood(l, c);
    assert At(l.free, 0) == 0 && NFree(m, 0) == At(l.free, 1);
    QuietWrites(m, m', l', {4 * NFree(m, 0) + 3, 4 * c + 2, 4 * c + 3, 2, 4 * c});
    forall b | b in l.Live() && b != c
      ensures forall i :: 4 * b + 2 <= i < 4 * l.Next(b) ==> m'[i] == m[i]
    {
      assert b in l'.Live() && l'.Next(b) == l.Next(b);
    }
  }

  // ----- what quiet writes mean for the clients

  lemma SamePayload(m: Image, m': Image, l: Layout, l': Layout, but: set<nat>, b: nat)
    requires l.WellFormed() && |m| == 4 * (l.last + 1) == |m'| && Quiet(m, m', l, but)
    requires l'.WellFormed() && l'.last == l.last
    requires b in l.Live() && b !in but && l'.Next(b) == l.Next(b)
    ensures Payload(m', l', b) == Payload(m, l, b)
  {
  }

  /** A cleared heap with the words of umm_init. */
  ghost function InitImage(last: nat): (r: Image)
    requires 2 <= last <= MAX_LAST
  {
    var z: Image := seq(4 * (last + 1), _ => 0);
    var m0 := PutPFree(PutNFree(PutNBlock(z, 0, 1), 0, 1), 0, 1);
    var m1 := PutPFree(PutPBlock(PutNFree(PutNBlock(m0, 1, last + 0x8000), 1, 0), 1, 0), 1, 0);
    PutPBlock(PutNBlock(m1, last, 0), last, 1)
  }

  lemma InitStores(last: nat)
    requires 2 <= last <= MAX_LAST
    ensures Stores(InitImage(last), Initial(last)) && Initial(last).Good() && Initial(last).Live() == {}
  {
    var l, m := Initial(last), InitImage(last);
    NextIs(l, 0, 1);
    NextIs(l, 1, last);
    PrevIs(l, 1, 0);
    PrevIs(l, last, 1);
    assert l.Next(0) == 1 && l.Next(1) == last;
    forall i, j | 0 <= i < j == i + 1 <= 2
      ensures NFree(m, At(l.free, i)) == At(l.free, j) && PFree(m, At(l.free, j)) == At(l.free, i)
    {
      assert i == 0 || i == 1;
    }
  }

  lemma ReleasePayload(m: Image, m1: Image, m': Image, l: Layout, c: nat, b: nat)
    requires l.Good() && |m| == 4 * (l.last + 1) == |m1| == |m'| && c in l.Live()
    requires Quiet(m, m1, l, {})
    requires l.MergeUp(c).WellFormed() && Quiet(m1, m', l.MergeUp(c), {c})
    requires b in l.Live() && b != c
    ensures l.Release(c).WellFormed() && Payload(m', l.Release(c), b) == Payload(m, l, b)
  {
    ReleaseGood(l, c);
    MergeUpGood(l, c);
    MergeUpNext(l, c, b);
    ReleaseNext(l, c, b);
    SamePayload(m, m1, l, l.MergeUp(c), {}, b);
    SamePayload(m1, m', l.MergeUp(c), l.Release(c), {c}, b);
  }

  lemma ReleaseView(m: Image, m1: Image, m': Image, l: Layout, c: nat)
    requires l.Good() && |m| == 4 * (l.last + 1) == |m1| == |m'| && c in l.Live()
    requires Quiet(m, m1, l, {})
    requires l.MergeUp(c).WellFormed() && Quiet(m1, m', l.MergeUp(c), {c})
    ensures l.Release(c).WellFormed() && View(m', l.Release(c)) == View(m, l) - {c}
  {
    ReleaseGood(l, c);
    var v, v' := View(m, l), View(m', l.Release(c));
    forall b | b in v'
      ensures b in v && v'[b] == v[b]
    {
      ReleasePayload(m, m1, m', l, c, b);
    }
  }

  lemma AllocPayload(m: Image, m': Image, l: Layout, c: nat, k: nat, b: nat)
    requires l.Good() && |m| == 4 * (l.last + 1) == |m'| && c in l.free && 0 < k <= l.Size(c)
    requires Quiet(m, m', l, {}) && b in l.Live()
    ensures l.Alloc(c, k).WellFormed() && Payload(m', l.Alloc(c, k), b) == Payload(m, l, b)
  {
    AllocGood(l, c, k);
    AllocNext(l, c, k, b);
    SamePayload(m, m', l, l.Alloc(c, k), {}, b);
  }

  lemma AllocView(m: Image, m': Image, l: Layout, c: nat, k: nat)
    requires l.Good() && |m| == 4 * (l.last + 1) == |m'| && c in l.free && 0 < k <= l.Size(c)
    requires Quiet(m, m', l, {})
    ensures l.Alloc(c, k).WellFormed() && View(m', l.Alloc(c, k)) - {c} == View(m, l)
    ensures c in View(m', l.Alloc(c, k)) && |View(m', l.Alloc(c, k))[c]| == 4 * k - 2
  {
    hide Quiet, View, Payload;
    AllocGood(l, c, k);
    forall b | b in l.Live()
      ensures Payload(m', l.Alloc(c, k), b) == Payload(m, l, b)
    {
      AllocPayload(m, m', l, c, k, b);
    }
    ViewGrows(m, m', l, l.Alloc(c, k), c);
  }

  /** A new live block `c` beside the old ones. */
  lemma ViewGrows(m: Image, m': Image, l: Layout, l': Layout, c: nat)
    requires l.WellFormed() && l'.WellFormed() && |m| == 4 * (l.last + 1) == 4 * (l'.last + 1) == |m'|
    requires c !in l.Live() && c in l'.Live() && l'.Live() == l.Live() + {c}
    requires forall b {:trigger Payload(m', l', b)} :: b in l.Live() ==> Payload(m', l', b) == Payload(m, l, b)
    ensures View(m', l') - {c} == View(m, l) && |View(m', l')[c]| == 4 * l'.Size(c) - 2
  {
    hide Layout.WellFormed, Layout.Live, Payload;
    assert (View(m', l') - {c}).Keys == View(m, l).Keys;
  }

  /** `m'` differs from `m` inside the payload of the live block `d` only. */
  ghost predicate WritesInto(m: Image, m': Image, l: Layout, d: nat)
    requires l.WellFormed() && |m| == 4 * (l.last + 1) && d < l.last
  {
    && |m'| == |m|
    && forall i {:trigger m'[i]} :: 0 <= i < |m| && !(4 * d + 2 <= i < 4 * l.Next(d)) ==> m'[i] == m[i]
  }

  lemma PayloadWriteChain(m: Image, m': Image, l: Layout, d: nat)
    requires Stores(m, l) && d in l.Live() && WritesInto(m, m', l, d)
    ensures Chain(m', l)
  {
    forall b: nat | b in l.blocks
      ensures NBlock(m', b) == NBlock(m, b) && PBlock(m', b) == PBlock(m, b)
    {
    }
  }

  lemma PayloadWriteRing(m: Image, m': Image, l: Layout, d: nat)
    requires Stores(m, l) && d in l.Live() && WritesInto(m, m', l, d)
    ensures Ring(m', l.free)
  {
    forall i | 0 <= i <= |l.free| + 1
      ensures NFree(m', At(l.free, i)) == NFree(m, At(l.free, i)) && PFree(m', At(l.free, i)) == PFree(m, At(l.free, i))
    {
      assert At(l.free, i) < d || l.Next(d) <= At(l.free, i);
    }
  }

  lemma PayloadElsewhere(m: Image, m': Image, l: Layout, d: nat, b: nat)
    requires l.WellFormed() && |m| == 4 * (l.last + 1) && d in l.Live() && WritesInto(m, m', l, d)
    requires b in l.Live() && b != d
    ensures Payload(m', l, b) == Payload(m, l, b)
  {
    assert l.Next(b) <= d || l.Next(d) <= b;
  }

  lemma PayloadWriteView(m: Image, m': Image, l: Layout, d: nat)
    requires l.WellFormed() && |m| == 4 * (l.last + 1) && d in l.Live() && WritesInto(m, m', l, d)
    ensures View(m', l) == View(m, l)[d := Payload(m', l, d)]
  {
    forall b | b in l.Live() && b != d
      ensures Payload(m', l, b) == Payload(m, l, b)
    {
      PayloadElsewhere(m, m', l, d, b);
    }
  }

  /** Writing to the payload of a live block disturbs neither the structure nor other payloads. */
  lemma PayloadWrite(m: Image, m': Image, l: Layout, d: nat)
    requires Stores(m, l) && d in l.Live() && WritesInto(m, m', l, d)
    ensures Stores(m', l)
    ensures View(m', l) == View(m, l)[d := Payload(m', l, d)]
  {
    PayloadWriteChain(m, m', l, d);
    PayloadWriteRing(m, m', l, d);
    PayloadWriteView(m, m', l, d);
  }

  lemma ScanStart(m: Image, l: Layout)
    requires Stores(m, l)
    ensures NFree(m, 0) == At(l.free, 1)
  {
    assert At(l.free, 0) == 0;
  }

  /** What the free-list scan reads at the i-th member. */
  lemma ScanCell(m: Image, l: Layout, i: nat)
    requires Stores(m, l) && i < |l.free|
    ensures BlockNo(NBlock(m, l.free[i])) - l.free[i] == l.Size(l.free[i]) < 0x7FFF
    ensures NFree(m, l.free[i]) == At(l.free, i + 2)
  {
    assert At(l.free, i + 1) == l.free[i];
    assert At(l.free, i + 2) == NFree(m, At(l.free, i + 1));
    assert NBlock(m, l.free[i]) == Header(l, l.free[i]);
  }

  function Poke(s: seq<Word>, i: nat, w: Word): (r: seq<Word>)
    requires i < |s|
  {
    s[i := w]
  }

  type Byte = b: int | 0 <= b < 0x100

  /** A word with its low or its high byte replaced. */
  function WithByte(w: Word, high: bool, b: Byte): (r: Word) {
    if high then w % 0x100 + 0x100 * b else w - w % 0x100 + b
  }

  /** The bytes of a payload, in little-endian words. */
  function BytesOf(s: seq<Word>): (r: seq<Byte>)
    ensures |r| == 2 * |s|
  {
    seq(2 * |s|, j requires 0 <= j < 2 * |s| => if j % 2 == 0 then s[j / 2] % 0x100 else s[j / 2] / 0x100)
  }

  /** Storing one byte. */
  function PokeByte(s: seq<Word>, j: nat, b: Byte): (r: seq<Word>)
    requires j < 2 * |s|
    ensures |r| == |s| && BytesOf(r) == BytesOf(s)[j := b]
  {
    Poke(s, j / 2, WithByte(s[j / 2], j % 2 == 1, b))
  }

  lemma WriteWord(m: Image, l: Layout, d: nat, i: nat, w: Word)
    requires Stores(m, l) && d in l.Live() && i < |Payload(m, l, d)|
    ensures Stores(m[4 * d + 2 + i := w], l)
    ensures View(m[4 * d + 2 + i := w], l) == View(m, l)[d := Poke(View(m, l)[d], i, w)]
  {
    var m': Image := m[4 * d + 2 + i := w];
    PayloadWrite(m, m', l, d);
    assert Payload(m', l, d) == Poke(Payload(m, l, d), i, w);
  }

  lemma ViewWord(m: Image, l: Layout, d: nat, i: nat)
    requires l.WellFormed() && |m| == 4 * (l.last + 1) && d in l.Live() && i < |Payload(m, l, d)|
    ensures 4 * d + 2 + i < |m| && |View(m, l)[d]| == |Payload(m, l, d)| && View(m, l)[d][i] == m[4 * d + 2 + i]
  {
  }

  /** A byte stored in the payload of `d`. */
  lemma WriteStores(m: Image, l: Layout, d: nat, j: nat, b: Byte)
    requires Stores(m, l) && d in l.Live() && j < 2 * |Payload(m, l, d)|
    ensures 4 * d + 2 + j / 2 < |m|
    ensures var i := 4 * d + 2 + j / 2;
      var m' := m[i := WithByte(m[i], j % 2 == 1, b)];
      Stores(m', l) && View(m', l) == View(m, l)[d := PokeByte(View(m, l)[d], j, b)]
  {
    hide WithByte, BytesOf, Chain, Ring, Poke, View, Payload;
    var k := j / 2;
    ViewWord(m, l, d, k);
    WriteWord(m, l, d, k, WithByte(m[4 * d + 2 + k], j % 2 == 1, b));
  }

  // ----- the steps of umm_realloc, as the clients see them

  /** Block `c` with the words `v[c]` has become block `d`, whose first `n` words are the old ones;
      nothing else changed. */
  ghost predicate Relocated(v: map<nat, seq<Word>>, v': map<nat, seq<Word>>, c: nat, d: nat, n: nat) {
    && c in v && d in v' && n <= |v[c]| && n <= |v'[d]|
    && v' - {d} == v - {c}
    && v'[d][..n] == v[c][..n]
  }

  lemma RelocatedMaps(v: map<nat, seq<Word>>, v': map<nat, seq<Word>>, c: nat, d: nat, n: nat)
    requires c in v && d in v' && n <= |v[c]| && n <= |v'[d]|
    requires v'.Keys - {d} == v.Keys - {c}
    requires forall b :: b in v && b != c && b in v' ==> v'[b] == v[b]
    requires v'[d][..n] == v[c][..n]
    ensures Relocated(v, v', c, d, n)
  {
  }

  lemma RelocatedTrans(v: map<nat, seq<Word>>, v1: map<nat, seq<Word>>, v2: map<nat, seq<Word>>,
                       c: nat, d: nat, e: nat, n: nat)
    requires Relocated(v, v1, c, d, n) && Relocated(v1, v2, d, e, n)
    ensures Relocated(v, v2, c, e, n)
  {
  }

  lemma RelocatedIntro(m: Image, m': Image, l: Layout, l': Layout, c: nat, d: nat, n: nat)
    requires l.WellFormed() && l'.WellFormed() && |m| == 4 * (l.last + 1) == 4 * (l'.last + 1) == |m'|
    requires c in l.Live() && d in l'.Live() && l'.Live() - {d} == l.Live() - {c}
    requires n <= 4 * l.Size(c) - 2 && n <= 4 * l'.Size(d) - 2
    requires forall b {:trigger Payload(m', l', b)} :: b in l.Live() && b != c ==> Payload(m', l', b) == Payload(m, l, b)
    requires m'[4 * d + 2..4 * d + 2 + n] == m[4 * c + 2..4 * c + 2 + n]
    ensures Relocated(View(m, l), View(m', l'), c, d, n)
  {
    PayloadPrefix(m, l, c, n);
    PayloadPrefix(m', l', d, n);
    hide Layout.WellFormed, Layout.Live, Payload, Relocated;
    RelocatedMaps(View(m, l), View(m', l'), c, d, n);
  }

  lemma MergeUpPayload(m: Image, m': Image, l: Layout, c: nat, b: nat)
    requires l.Good() && |m| == 4 * (l.last + 1) == |m'| && c in l.Live() && Quiet(m, m', l, {})
    requires b in l.Live() && b != c
    ensures l.MergeUp(c).WellFormed() && Payload(m', l.MergeUp(c), b) == Payload(m, l, b)
  {
    MergeUpGood(l, c);
    MergeUpNext(l, c, b);
    SamePayload(m, m', l, l.MergeUp(c), {}, b);
  }

  lemma MergeUpView(m: Image, m': Image, l: Layout, c: nat)
    requires l.Good() && |m| == 4 * (l.last + 1) == |m'| && c in l.Live() && Quiet(m, m', l, {})
    ensures l.MergeUp(c).WellFormed()
    ensures Relocated(View(m, l), View(m', l.MergeUp(c)), c, c, 4 * l.Size(c) - 2)
    ensures l.MergeUp(c).Size(c) == l.Size(c) + l.FreeAbove(c)
  {
    hide View, Relocated;
    MergeUpGood(l, c);
    forall b | b in l.Live() && b != c
      ensures Payload(m', l.MergeUp(c), b) == Payload(m, l, b)
    {
      MergeUpPayload(m, m', l, c, b);
    }
    RelocatedIntro(m, m', l, l.MergeUp(c), c, c, 4 * l.Size(c) - 2);
  }

  lemma SplitPayload(m: Image, m': Image, l: Layout, c: nat, k: nat, b: nat)
    requires l.Good() && Stores(m, l) && c in l.Live() && 0 < k < l.Size(c)
    requires 4 * BlockNo(NBlock(m, c)) + 3 < |m| && m' == SplitImage(m, c, k, 0)
    requires b in l.Live() && b != c
    ensures l.Split(c, k).WellFormed() && Payload(m', l.Split(c, k), b) == Payload(m, l, b)
  {
    var l' := l.Split(c, k);
    SplitGood(l, c, k);
    SplitQuiet(m, m', l, c, k);
    AddStart(l, l', c, c + k);
    SamePayload(m, m', l', l, {c + k}, b);
  }

  lemma SplitPrefix(m: Image, m': Image, l: Layout, c: nat, k: nat)
    requires l.Good() && Stores(m, l) && c in l.Live() && 0 < k < l.Size(c)
    requires 4 * BlockNo(NBlock(m, c)) + 3 < |m| && m' == SplitImage(m, c, k, 0)
    requires |m| == 4 * (l.last + 1) == |m'|
    ensures l.Split(c, k).WellFormed() && c + k !in l.blocks
    ensures Payload(m', l.Split(c, k), c) == Payload(m, l, c)[..4 * k - 2]
  {
    hide Stores, SplitImage, Layout.Coalesced;
    SplitGood(l, c, k);
    SplitQuiet(m, m', l, c, k);
    var l' := l.Split(c, k);
    AddStart(l, l', c, c + k);
    assert l'.Next(c) == c + k && c in l'.Live() && c != c + k;
    PayloadPrefix(m, l, c, 4 * k - 2);
    assert m'[4 * c + 2..4 * (c + k)] == m[4 * c + 2..4 * c + 2 + (4 * k - 2)];
  }

  lemma SplitView(m: Image, m': Image, l: Layout, c: nat, k: nat)
    requires l.Good() && Stores(m, l) && c in l.Live() && 0 < k < l.Size(c)
    requires 4 * BlockNo(NBlock(m, c)) + 3 < |m| && m' == SplitImage(m, c, k, 0)
    requires |m| == 4 * (l.last + 1) == |m'|
    ensures l.Split(c, k).WellFormed() && c + k !in View(m, l)
    ensures View(m', l.Split(c, k)).Keys == View(m, l).Keys + {c + k}
    ensures forall b :: b in View(m, l) && b != c ==> View(m', l.Split(c, k))[b] == View(m, l)[b]
    ensures |View(m, l)[c]| == 4 * l.Size(c) - 2
    ensures View(m', l.Split(c, k))[c] == View(m, l)[c][..4 * k - 2]
  {
    hide Stores, SplitImage, Layout.WellFormed;
    SplitGood(l, c, k);
    SplitPrefix(m, m', l, c, k);
    assert c + k !in l.Live();
    forall b | b in View(m, l) && b != c
      ensures View(m', l.Split(c, k))[b] == View(m, l)[b]
    {
      SplitPayload(m, m', l, c, k, b);
    }
  }

  lemma TrimView(m: Image, m': Image, l: Layout, c: nat, k: nat)
    requires l.Good() && Stores(m, l) && c in l.Live() && 0 < k < l.Size(c)
    requires 4 * BlockNo(NBlock(m, c)) + 3 < |m| && m' == SplitImage(m, c, k, 0)
    requires |m| == 4 * (l.last + 1) == |m'|
    ensures l.Split(c, k).WellFormed()
    ensures Relocated(View(m, l), View(m', l.Split(c, k)) - {c + k}, c, c, 4 * k - 2)
  {
    hide Stores, SplitImage, Layout.WellFormed, View;
    SplitView(m, m', l, c, k);
    RelocatedMaps(View(m, l), View(m', l.Split(c, k)) - {c + k}, c, c, 4 * k - 2);
  }

  /** Unlinking the free block below `c` and merging `c` into it moves no payload word. */
  lemma TakeBelowQuiet(m: Image, m1: Image, m2: Image, l: Layout, c: nat)
    requires l.Good() && |m| == 4 * (l.last + 1) == |m1| == |m2|
    requires c in l.Live() && l.Prev(c) in l.free
    requires Quiet(m, m1, l, {}) && l.Unlink(l.Prev(c)).WellFormed() && Quiet(m1, m2, l.Unlink(l.Prev(c)), {})
    ensures Quiet(m, m2, l, {})
  {
    UnlinkGood(l, l.Prev(c));
    QuietTrans(m, m1, m2, l, l.Unlink(l.Prev(c)));
  }

  lemma TakeBelowPayload(m: Image, m2: Image, m3: Image, l: Layout, c: nat, b: nat)
    requires l.Good() && |m| == 4 * (l.last + 1) == |m2| && c in l.Live() && l.Prev(c) in l.free
    requires b in l.Live() && b != c
    requires Quiet(m, m2, l, {})
    requires l.TakeBelow(c).WellFormed() && WritesInto(m2, m3, l.TakeBelow(c), l.Prev(c))
    ensures Payload(m3, l.TakeBelow(c), b) == Payload(m, l, b)
  {
    TakeBelowGood(l, c);
    TakeBelowNext(l, c, b);
    SamePayload(m, m2, l, l.TakeBelow(c), {}, b);
    PayloadElsewhere(m2, m3, l.TakeBelow(c), l.Prev(c), b);
  }

  lemma TakeBelowView(m: Image, m2: Image, m3: Image, l: Layout, c: nat, n: nat)
    requires l.Good() && |m| == 4 * (l.last + 1) == |m2| == |m3| && c in l.Live() && l.Prev(c) in l.free
    requires n <= 4 * l.Size(c) - 2
    requires Quiet(m, m2, l, {})
    requires l.TakeBelow(c).WellFormed() && WritesInto(m2, m3, l.TakeBelow(c), l.Prev(c))
    requires m3[4 * l.Prev(c) + 2..4 * l.Prev(c) + 2 + n] == m2[4 * c + 2..4 * c + 2 + n]
    ensures Relocated(View(m, l), View(m3, l.TakeBelow(c)), c, l.Prev(c), n)
  {
    hide View, Relocated, WritesInto;
    TakeBelowGood(l, c);
    assert m2[4 * c + 2..4 * c + 2 + n] == m[4 * c + 2..4 * c + 2 + n] by { assert l.Next(c) == c + l.Size(c); }
    forall b | b in l.Live() && b != c
      ensures Payload(m3, l.TakeBelow(c), b) == Payload(m, l, b)
    {
      TakeBelowPayload(m, m2, m3, l, c, b);
    }
    RelocatedIntro(m, m3, l, l.TakeBelow(c), c, l.Prev(c), n);
  }

  lemma RelocatedPrefix(v: map<nat, seq<Word>>, v': map<nat, seq<Word>>, c: nat, d: nat, n: nat, k: nat)
    requires Relocated(v, v', c, d, n) && k <= n
    ensures Relocated(v, v', c, d, k)
  {
    assert v'[d][..k] == v'[d][..n][..k] && v[c][..k] == v[c][..n][..k];
  }

  /** Copying `n` words from block `c` to the start of block `d`. */
  lemma CopyView(m: Image, m': Image, l: Layout, c: nat, d: nat, n: nat)
    requires Stores(m, l) && c in l.Live() && d in l.Live() && c != d && |m'| == |m|
    requires n <= 4 * l.Size(c) - 2 && n <= 4 * l.Size(d) - 2
    requires m'[4 * d + 2..4 * d + 2 + n] == m[4 * c + 2..4 * c + 2 + n]
    requires forall i :: 0 <= i < |m| && !(4 * d + 2 <= i < 4 * d + 2 + n) ==> m'[i] == m[i]
    ensures Stores(m', l)
    ensures View(m', l) == View(m, l)[d := View(m', l)[d]]
    ensures |View(m, l)[c]| == 4 * l.Size(c) - 2 && |View(m', l)[d]| == 4 * l.Size(d) - 2
    ensures View(m', l)[d][..n] == View(m, l)[c][..n]
  {
    hide Chain, Ring, Payload;
    PayloadWrite(m, m', l, d);
    PayloadPrefix(m', l, d, n);
    PayloadPrefix(m, l, c, n);
  }

  /** A fresh block `d`, a copy into it and the release of `c` add up to a move. */
  lemma CopyRelocated(v0: map<nat, seq<Word>>, v: map<nat, seq<Word>>, v': map<nat, seq<Word>>, c: nat, d: nat, n: nat)
    requires d in v && d !in v0 && v - {d} == v0 && c in v0 && c != d && d in v'
    requires v' == v[d := v'[d]] - {c}
    requires n <= |v[c]| && n <= |v'[d]| && v'[d][..n] == v[c][..n]
    ensures Relocated(v0, v', c, d, n)
  {
  }
}
