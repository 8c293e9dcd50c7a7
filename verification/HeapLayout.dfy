/**
 The layout of the umm_malloc heap, without its memory words: which cells start a
 block, and the free list in its list order. Cell 0 heads the free list and cell
 `last` ends the block chain; neither is ever handed out.
 */
module HeapLayout {

  /** The largest cell index that fits the 15 bits left beside the free flag. */
  const MAX_LAST: nat := 0x7FFF

  lemma NextExists(starts: set<nat>, b: nat, hi: nat)
    requires hi in starts && b < hi
    ensures exists r: nat :: r in starts && b < r && forall y :: y in starts && b < y ==> r <= y
  {
    if y :| y in starts && b < y < hi {
      NextExists(starts, b, y);
    } else {
      assert hi in starts;
    }
  }

  lemma PrevExists(starts: set<nat>, b: nat, lo: nat)
    requires lo in starts && lo < b
    ensures exists r: nat :: r in starts && r < b && forall y :: y in starts && y < b ==> y <= r
    decreases b - lo
  {
    if y :| y in starts && lo < y < b {
      PrevExists(starts, b, y);
    } else {
      assert lo in starts;
    }
  }

  /** The first block start after `b`. */
  ghost function Succ(starts: set<nat>, last: nat, b: nat): (r: nat)
    requires last in starts && b < last
    ensures r in starts && b < r <= last
    ensures forall y :: y in starts && b < y ==> r <= y
  {
    NextExists(starts, b, last);
    var r: nat :| r in starts && b < r && forall y :: y in starts && b < y ==> r <= y;
    r
  }

  /** The last block start before `b`. */
  ghost function Pred(starts: set<nat>, b: nat): (r: nat)
    requires 0 in starts && 0 < b
    ensures r in starts && r < b
    ensures forall y :: y in starts && y < b ==> y <= r
  {
    PrevExists(starts, b, 0);
    var r: nat :| r in starts && r < b && forall y :: y in starts && y < b ==> y <= r;
    r
  }

  predicate Distinct(s: seq<nat>) {
    forall i, j :: 0 <= i < j < |s| ==> s[i] != s[j]
  }

  function IndexOf(s: seq<nat>, x: nat): (k: nat)
    requires x in s
    ensures k < |s| && s[k] == x
  {
    if s[0] == x then 0 else 1 + IndexOf(s[1..], x)
  }

  function RemoveAt(s: seq<nat>, k: nat): (r: seq<nat>)
    requires k < |s|
    ensures |r| == |s| - 1
    ensures forall i :: 0 <= i < k ==> r[i] == s[i]
    ensures forall i :: k <= i < |r| ==> r[i] == s[i + 1]
  {
    s[..k] + s[k + 1..]
  }

  lemma RemoveAtMembers(s: seq<nat>, k: nat)
    requires k < |s| && Distinct(s)
    ensures Distinct(RemoveAt(s, k))
    ensures forall x :: x in RemoveAt(s, k) <==> x in s && x != s[k]
  {
  }

  lemma {:induction false} DistinctBound(s: seq<nat>, bag: set<nat>)
    requires Distinct(s) && forall i :: 0 <= i < |s| ==> s[i] in bag
    ensures |s| <= |bag|
  {
    if s != [] { DistinctBound(s[1..], bag - {s[0]}); }
  }

  lemma ReplaceAtMembers(s: seq<nat>, k: nat, x: nat)
    requires k < |s| && Distinct(s) && x !in s
    ensures Distinct(s[k := x])
    ensures forall y :: y in s[k := x] <==> y == x || (y in s && y != s[k])
  {
    var r := s[k := x];
    assert r[k] == x;
    forall y | y in s && y != s[k]
      ensures y in r
    {
      var i :| 0 <= i < |s| && s[i] == y;
      assert r[i] == y;
    }
  }

  datatype Layout = Layout(last: nat, blocks: set<nat>, free: seq<nat>) {

    /** The shape every heap state has: the chain runs from 0 to `last`, and the
        free list names distinct inner blocks. */
    ghost predicate WellFormed() {
      && 2 <= last <= MAX_LAST
      && {0, 1, last} <= blocks
      && (forall b :: b in blocks ==> b <= last)
      && (forall i :: 0 <= i < |free| ==> free[i] in blocks && 0 < free[i] < last)
      && Distinct(free)
    }

    ghost function Next(b: nat): (r: nat)
      requires last in blocks && b < last
      ensures r in blocks && b < r <= last
    {
      Succ(blocks, last, b)
    }

    ghost function Prev(b: nat): (r: nat)
      requires 0 in blocks && 0 < b
      ensures r in blocks && r < b
    {
      Pred(blocks, b)
    }

    ghost function Size(b: nat): (r: nat)
      requires last in blocks && b < last
      ensures 0 < r <= last - b
    {
      Next(b) - b
    }

    /** No two neighbouring blocks are both free. */
    ghost predicate Coalesced()
      requires last in blocks
    {
      forall b {:trigger Next(b)} :: b in blocks && b < last && b in free ==> Next(b) !in free
    }

    ghost predicate Good() {
      WellFormed() && Coalesced()
    }

    /** The blocks that clients hold. */
    ghost function Live(): (r: set<nat>) {
      set b | b in blocks && 0 < b < last && b !in free
    }

    // ----- steps of the allocator

    /** Takes `c` off the free list. */
    ghost function Unlink(c: nat): (r: Layout)
      requires c in free
    {
      this.(free := RemoveAt(free, IndexOf(free, c)))
    }

    /** Cuts the first `k` cells off the free block `c`; the rest stays on the list in c's place. */
    ghost function Carve(c: nat, k: nat): (r: Layout)
      requires c in free
    {
      this.(blocks := blocks + {c + k}, free := free[IndexOf(free, c) := c + k])
    }

    ghost function Alloc(c: nat, k: nat): (r: Layout)
      requires c in free && last in blocks && c < last
    {
      if Size(c) == k then Unlink(c) else Carve(c, k)
    }

    /** Cuts the used block `c` in two used blocks. */
    ghost function Split(c: nat, k: nat): (r: Layout) {
      this.(blocks := blocks + {c + k})
    }

    /** Merges `c` with the block above it, if that one is free. */
    ghost function MergeUp(c: nat): (r: Layout)
      requires last in blocks && c < last
    {
      if Next(c) in free
      then Unlink(Next(c)).(blocks := blocks - {Next(c)})
      else this
    }

    /** Lets the block below `c` swallow it. */
    ghost function MergeDown(c: nat): (r: Layout) {
      this.(blocks := blocks - {c})
    }

    ghost function Release(c: nat): (r: Layout)
      requires last in blocks && 0 in blocks && 0 < c < last
    {
      var up := MergeUp(c);
      if Prev(c) in free then up.MergeDown(c) else up.(free := [c] + up.free)
    }

    /** Free cells right above and right below block `c`. */
    ghost function FreeAbove(c: nat): (r: nat)
      requires last in blocks && c < last
    {
      if Next(c) in free && Next(c) < last then Size(Next(c)) else 0
    }

    ghost function FreeBelow(c: nat): (r: nat)
      requires 0 in blocks && 0 < c
    {
      if Prev(c) in free then c - Prev(c) else 0
    }

    /** The cells block `c` could span without moving past its neighbours. */
    ghost function Room(c: nat): (r: nat)
      requires last in blocks && 0 in blocks && 0 < c < last
    {
      FreeBelow(c) + Size(c) + FreeAbove(c)
    }

    /** The used block `c` takes over the free block below it. */
    ghost function TakeBelow(c: nat): (r: Layout)
      requires 0 in blocks && 0 < c && Prev(c) in free
    {
      Unlink(Prev(c)).MergeDown(c)
    }

    /** The used block `c` gives back all but its first `k` cells. */
    ghost function Trim(c: nat, k: nat): (r: Layout)
      requires last in blocks && 0 in blocks && 0 < c + k < last
    {
      Split(c, k).Release(c + k)
    }

    /** TakeBelow, where there is a free block below. */
    ghost function TakeBelowFree(c: nat): (r: Layout) {
      if 0 in blocks && 0 < c && Prev(c) in free then TakeBelow(c) else this
    }

    /** Block `c` with as many of its free neighbours as `k` cells call for: the first strategy that gives enough. */
    ghost function Enlarged(c: nat, k: nat): (r: Layout)
      requires last in blocks && 0 in blocks && 0 < c < last
    {
      if k <= Size(c) then this
      else if k <= Size(c) + FreeAbove(c) then MergeUp(c)
      else if k <= FreeBelow(c) + Size(c) then TakeBelowFree(c)
      else MergeUp(c).TakeBelowFree(c)
    }

    /** Where that block starts. */
    ghost function Place(c: nat, k: nat): (d: nat)
      requires last in blocks && 0 in blocks && 0 < c < last
    {
      if k <= Size(c) + FreeAbove(c) then c else Prev(c)
    }

    /** Trim, where there is something to give back. */
    ghost function TrimmedTo(d: nat, k: nat): (r: Layout) {
      if last in blocks && 0 in blocks && 0 < d < d + k < last && k < Size(d) then Trim(d, k) else this
    }

    // ----- best fit

    ghost predicate Fits(k: nat)
      requires WellFormed()
    {
      exists i :: 0 <= i < |free| && k <= Size(free[i])
    }

    /** `free[i]` is the smallest block of at least `k` cells among the first `upTo`,
        and the earliest of that size. */
    ghost predicate BestAmong(k: nat, i: nat, upTo: nat)
      requires WellFormed() && upTo <= |free|
    {
      && i < upTo
      && k <= Size(free[i])
      && (forall j :: 0 <= j < upTo && k <= Size(free[j]) ==> Size(free[i]) <= Size(free[j]))
      && (forall j :: 0 <= j < i && k <= Size(free[j]) ==> Size(free[i]) < Size(free[j]))
    }

    ghost predicate BestFit(k: nat, c: nat)
      requires WellFormed()
    {
      exists i: nat :: BestAmong(k, i, |free|) && free[i] == c
    }
  }

  function Initial(last: nat): (r: Layout) {
    Layout(last, {0, 1, last}, [1])
  }

  lemma InitialGood(last: nat)
    requires 2 <= last <= MAX_LAST
    ensures Initial(last).Good()
  {
  }

  // ----- neighbours

  lemma PrevOfNext(l: Layout, b: nat)
    requires l.WellFormed() && b in l.blocks && b < l.last
    ensures l.Prev(l.Next(b)) == b
  {
  }

  lemma NextOfPrev(l: Layout, b: nat)
    requires l.WellFormed() && b in l.blocks && 0 < b
    ensures l.Next(l.Prev(b)) == b
  {
  }

  // ----- every step keeps the shape

  lemma UnlinkGood(l: Layout, c: nat)
    requires l.Good() && c in l.free
    ensures l.Unlink(c).Good()
    ensures forall x :: x in l.Unlink(c).free <==> x in l.free && x != c
    ensures l.Unlink(c).Live() == l.Live() + {c}
  {
    RemoveAtMembers(l.free, IndexOf(l.free, c));
    var l' := l.Unlink(c);
    forall b | b in l'.blocks && b < l'.last && b in l'.free
      ensures l'.Next(b) !in l'.free
    {
      assert l'.Next(b) == l.Next(b);
    }
  }

  lemma NextIs(l: Layout, b: nat, r: nat)
    requires l.last in l.blocks && b < l.last && b < r && r in l.blocks
    requires forall y :: y in l.blocks && b < y ==> r <= y
    ensures l.Next(b) == r
  {
  }

  lemma PrevIs(l: Layout, b: nat, r: nat)
    requires 0 in l.blocks && r < b && r in l.blocks
    requires forall y :: y in l.blocks && y < b ==> y <= r
    ensures l.Prev(b) == r
  {
  }

  /** How one new start `x`, strictly inside block `c`, changes the neighbours. */
  lemma AddStart(l: Layout, l': Layout, c: nat, x: nat)
    requires l.WellFormed() && c in l.blocks && c < l.last && c < x < l.Next(c)
    requires l'.last == l.last && l'.blocks == l.blocks + {x}
    ensures l'.Next(c) == x && l'.Next(x) == l.Next(c)
    ensures l'.Prev(x) == c && l'.Prev(l.Next(c)) == x
    ensures forall b {:trigger l'.Next(b)} :: b in l.blocks && b < l.last && b != c ==> l'.Next(b) == l.Next(b)
    ensures forall b {:trigger l'.Prev(b)} :: b in l.blocks && 0 < b && b != l.Next(c) ==> l'.Prev(b) == l.Prev(b)
  {
  }

  /** How dropping the start `x` of a block changes the neighbours. */
  lemma DropStart(l: Layout, l': Layout, x: nat)
    requires l.WellFormed() && x in l.blocks && 1 < x < l.last
    requires l'.last == l.last && l'.blocks == l.blocks - {x}
    ensures l'.Next(l.Prev(x)) == l.Next(x) && l'.Prev(l.Next(x)) == l.Prev(x)
    ensures forall b {:trigger l'.Next(b)} :: b in l'.blocks && b < l.last && b != l.Prev(x) ==> l'.Next(b) == l.Next(b)
    ensures forall b {:trigger l'.Prev(b)} :: b in l'.blocks && 0 < b && b != l.Next(x) ==> l'.Prev(b) == l.Prev(b)
  {
    NextOfPrev(l, x);
    PrevOfNext(l, x);
    NextIs(l', l.Prev(x), l.Next(x));
    PrevIs(l', l.Next(x), l.Prev(x));
    forall b | b in l'.blocks && b < l.last && b != l.Prev(x)
      ensures l'.Next(b) == l.Next(b)
    {
      PrevOfNext(l, b);
      NextIs(l', b, l.Next(b));
    }
    forall b | b in l'.blocks && 0 < b && b != l.Next(x)
      ensures l'.Prev(b) == l.Prev(b)
    {
      NextOfPrev(l, b);
      PrevIs(l', b, l.Prev(b));
    }
  }

  lemma CarveShape(l: Layout, c: nat, k: nat)
    requires l.WellFormed() && c in l.free && 0 < k < l.Size(c)
    ensures l.Carve(c, k).WellFormed()
    ensures c + k !in l.blocks
    ensures forall x :: x in l.Carve(c, k).free <==> x == c + k || (x in l.free && x != c)
  {
    assert c + k !in l.blocks;
    ReplaceAtMembers(l.free, IndexOf(l.free, c), c + k);
  }

  lemma CarveGood(l: Layout, c: nat, k: nat)
    requires l.Good() && c in l.free && 0 < k < l.Size(c)
    ensures l.Carve(c, k).Good()
    ensures l.Carve(c, k).Live() == l.Live() + {c}
    ensures l.Carve(c, k).Next(c) == c + k
  {
    var l' := l.Carve(c, k);
    CarveShape(l, c, k);
    AddStart(l, l', c, c + k);
    forall b | b in l'.blocks && b < l'.last && b in l'.free
      ensures l'.Next(b) !in l'.free
    {
      assert l'.Next(b) == if b == c + k then l.Next(c) else l.Next(b);
    }
  }

  lemma SplitGood(l: Layout, c: nat, k: nat)
    requires l.Good() && c in l.Live() && 0 < k < l.Size(c)
    ensures l.Split(c, k).Good()
    ensures l.Split(c, k).Live() == l.Live() + {c + k}
    ensures c + k !in l.blocks
  {
    var l' := l.Split(c, k);
    AddStart(l, l', c, c + k);
    assert l'.WellFormed();
    forall b | b in l'.blocks && b < l'.last && b in l'.free
      ensures l'.Next(b) !in l'.free
    {
      assert l'.Next(b) == l.Next(b);
    }
  }

  lemma MergeUpGood(l: Layout, c: nat)
    requires l.Good() && c in l.Live()
    ensures l.MergeUp(c).Good()
    ensures l.MergeUp(c).Live() == l.Live()
    ensures l.MergeUp(c).Next(c) == if l.Next(c) in l.free then l.Next(l.Next(c)) else l.Next(c)
    ensures l.MergeUp(c).Next(c) !in l.MergeUp(c).free
    ensures l.MergeUp(c).Prev(c) == l.Prev(c)
  {
    var n := l.Next(c);
    if n in l.free {
      PrevOfNext(l, c);
      UnlinkGood(l, n);
      var l' := l.MergeUp(c);
      DropStart(l, l', n);
      assert l'.WellFormed();
      forall b | b in l'.blocks && b < l'.last && b in l'.free
        ensures l'.Next(b) !in l'.free
      {
        assert l'.Next(b) == l.Next(b);
      }
    }
  }

  /** A used block may be swallowed by a used one, or by a free one if that leaves no free neighbours. */
  lemma MergeDownGood(l: Layout, c: nat)
    requires l.Good() && c in l.Live()
    requires l.Prev(c) in l.Live() || (l.Prev(c) in l.free && l.Next(c) !in l.free)
    ensures l.MergeDown(c).Good()
    ensures l.MergeDown(c).Live() == l.Live() - {c}
    ensures l.MergeDown(c).Next(l.Prev(c)) == l.Next(c)
  {
    var l' := l.MergeDown(c);
    DropStart(l, l', c);
    assert l'.WellFormed();
    forall b | b in l'.blocks && b < l'.last && b in l'.free
      ensures l'.Next(b) !in l'.free
    {
      assert l'.Next(b) == if b == l.Prev(c) then l.Next(c) else l.Next(b);
    }
  }

  lemma LinkGood(l: Layout, c: nat)
    requires l.Good() && c in l.Live() && l.Next(c) !in l.free && l.Prev(c) !in l.free
    ensures l.(free := [c] + l.free).Good()
    ensures l.(free := [c] + l.free).Live() == l.Live() - {c}
  {
    var l' := l.(free := [c] + l.free);
    forall b | b in l'.blocks && b < l'.last && b in l'.free
      ensures l'.Next(b) !in l'.free
    {
      assert l'.Next(b) == l.Next(b);
      PrevOfNext(l, b);
    }
  }

  /** Merging up leaves every other used block where it was. */
  lemma MergeUpNext(l: Layout, c: nat, b: nat)
    requires l.Good() && c in l.Live() && b in l.Live() && b != c
    ensures l.MergeUp(c).Next(b) == l.Next(b)
  {
    if l.Next(c) in l.free {
      PrevOfNext(l, c);
      DropStart(l, l.MergeUp(c), l.Next(c));
    }
  }

  /** Releasing a block leaves every other used block where it was. */
  lemma ReleaseNext(l: Layout, c: nat, b: nat)
    requires l.Good() && c in l.Live() && b in l.Live() && b != c
    ensures l.Release(c).Next(b) == l.Next(b)
  {
    MergeUpGood(l, c);
    MergeUpNext(l, c, b);
    if l.Prev(c) in l.free {
      DropStart(l.MergeUp(c), l.Release(c), c);
    }
  }

  lemma ReleaseGood(l: Layout, c: nat)
    requires l.Good() && c in l.Live()
    ensures l.Release(c).Good()
    ensures l.Release(c).Live() == l.Live() - {c}
  {
    MergeUpGood(l, c);
    var up := l.MergeUp(c);
    NextOfPrev(l, c);
    if l.Next(c) in l.free { UnlinkGood(l, l.Next(c)); }
    if l.Prev(c) in l.free { MergeDownGood(up, c); } else { LinkGood(up, c); }
  }

  lemma AllocGood(l: Layout, c: nat, k: nat)
    requires l.Good() && c in l.free && 0 < k <= l.Size(c)
    ensures l.Alloc(c, k).Good()
    ensures l.Alloc(c, k).Live() == l.Live() + {c}
    ensures l.Alloc(c, k).Next(c) == c + k
  {
    if l.Size(c) == k { UnlinkGood(l, c); } else { CarveGood(l, c, k); }
  }

  /** Allocating leaves every used block where it was. */
  lemma AllocNext(l: Layout, c: nat, k: nat, b: nat)
    requires l.Good() && c in l.free && 0 < k <= l.Size(c) && b in l.Live()
    ensures l.Alloc(c, k).Next(b) == l.Next(b)
  {
  }

  lemma TakeBelowGood(l: Layout, c: nat)
    requires l.Good() && c in l.Live() && l.Prev(c) in l.free
    ensures l.TakeBelow(c).Good()
    ensures l.TakeBelow(c).Live() == l.Live() - {c} + {l.Prev(c)}
    ensures l.TakeBelow(c).Next(l.Prev(c)) == l.Next(c)
    ensures l.Unlink(l.Prev(c)).Good() && c in l.Unlink(l.Prev(c)).Live() && l.Prev(c) in l.Unlink(l.Prev(c)).Live()
  {
    UnlinkGood(l, l.Prev(c));
    MergeDownGood(l.Unlink(l.Prev(c)), c);
  }

  lemma TakeBelowNext(l: Layout, c: nat, b: nat)
    requires l.Good() && c in l.Live() && l.Prev(c) in l.free && b in l.Live() && b != c
    ensures l.TakeBelow(c).Next(b) == l.Next(b)
  {
    DropStart(l, l.TakeBelow(c), c);
  }

  lemma TrimGood(l: Layout, c: nat, k: nat)
    requires l.Good() && c in l.Live() && 0 < k < l.Size(c)
    ensures l.Split(c, k).Good() && c + k in l.Split(c, k).Live() && c + k !in l.blocks
    ensures l.Trim(c, k).Good()
    ensures l.Trim(c, k).Live() == l.Live()
    ensures l.Trim(c, k).Next(c) == c + k
  {
    SplitGood(l, c, k);
    AddStart(l, l.Split(c, k), c, c + k);
    ReleaseGood(l.Split(c, k), c + k);
    ReleaseNext(l.Split(c, k), c + k, c);
  }

  /** Merging up neither moves nor uses the free block below. */
  lemma PrevFreeAfterMergeUp(l: Layout, c: nat)
    requires l.Good() && c in l.Live() && l.Prev(c) in l.free
    ensures l.MergeUp(c).Good() && l.MergeUp(c).Prev(c) == l.Prev(c) && l.Prev(c) in l.MergeUp(c).free
  {
    MergeUpGood(l, c);
    if l.Next(c) in l.free { UnlinkGood(l, l.Next(c)); }
  }

  // ----- every cell has one owner, and the steps conserve cells

  /** The block that cell `x` belongs to. */
  ghost function Owner(l: Layout, x: nat): (b: nat)
    requires l.WellFormed() && x < l.last
    ensures b in l.blocks && b <= x < l.Next(b)
  {
    if x in l.blocks then x else l.Prev(x)
  }

  lemma OwnerUnique(l: Layout, x: nat, b: nat)
    requires l.WellFormed() && x < l.last && b in l.blocks && b < l.last && b <= x < l.Next(b)
    ensures Owner(l, x) == b
  {
  }

  predicate Within(x: int, lo: int, hi: int) {
    lo <= x < hi
  }

  function Span(lo: nat, hi: nat): (r: set<nat>) {
    set x: nat | lo <= x < hi && Within(x, lo, hi)
  }

  ghost function FreeCells(l: Layout): (r: set<nat>)
    requires l.WellFormed()
  {
    set x | 0 < x < l.last && Owner(l, x) in l.free
  }

  ghost function UsedCells(l: Layout): (r: set<nat>)
    requires l.WellFormed()
  {
    set x | 0 < x < l.last && Owner(l, x) in l.Live()
  }

  /** The sizes of the blocks from `b` on, along the chain. */
  ghost function SizesFrom(l: Layout, b: nat): (r: nat)
    requires l.WellFormed() && b in l.blocks
    decreases l.last - b
  {
    if b < l.last then l.Size(b) + SizesFrom(l, l.Next(b)) else 0
  }

  /** They add up to the cells from there to the last one. */
  lemma {:induction false} SizesAddUp(l: Layout, b: nat)
    requires l.WellFormed() && b in l.blocks
    ensures SizesFrom(l, b) == l.last - b
    decreases l.last - b
  {
    if b < l.last { SizesAddUp(l, l.Next(b)); }
  }

  /** Free and used blocks share the cells between the two end cells out without overlap or loss. */
  lemma CellsConserved(l: Layout)
    requires l.WellFormed()
    ensures FreeCells(l) !! UsedCells(l)
    ensures FreeCells(l) + UsedCells(l) == Span(1, l.last)
  {
  }

  /** Distinct live blocks are disjoint cell ranges. */
  lemma LiveDisjoint(l: Layout, b: nat, b': nat)
    requires l.WellFormed() && b in l.Live() && b' in l.Live() && b != b'
    ensures l.Next(b) <= b' || l.Next(b') <= b
  {
  }

  /** Allocation takes exactly the first `k` cells of the chosen block out of the free cells. */
  lemma AllocCells(l: Layout, c: nat, k: nat)
    requires l.Good() && c in l.free && 0 < k <= l.Size(c)
    ensures l.Alloc(c, k).WellFormed()
    ensures FreeCells(l.Alloc(c, k)) == FreeCells(l) - Span(c, c + k)
  {
    var l' := l.Alloc(c, k);
    AllocGood(l, c, k);
    forall x: nat | 0 < x < l.last
      ensures Owner(l', x) in l'.free <==> Owner(l, x) in l.free && !(c <= x < c + k)
    {
      AllocOwner(l, c, k, x);
    }
  }

  lemma AllocOwner(l: Layout, c: nat, k: nat, x: nat)
    requires l.Good() && c in l.free && 0 < k <= l.Size(c) && 0 < x < l.last
    ensures l.Alloc(c, k).WellFormed()
    ensures Owner(l.Alloc(c, k), x) in l.Alloc(c, k).free <==> Owner(l, x) in l.free && !(c <= x < c + k)
  {
    var l', b := l.Alloc(c, k), Owner(l, x);
    AllocGood(l, c, k);
    if l.Size(c) == k {
      UnlinkGood(l, c);
      OwnerUnique(l', x, b);
    } else {
      CarveShape(l, c, k);
      AddStart(l, l', c, c + k);
      OwnerUnique(l', x, if b == c && c + k <= x then c + k else b);
    }
  }

  /** Releasing gives back exactly the cells of the block. */
  lemma ReleaseCells(l: Layout, c: nat)
    requires l.Good() && c in l.Live()
    ensures l.Release(c).WellFormed()
    ensures FreeCells(l.Release(c)) == FreeCells(l) + Span(c, l.Next(c))
  {
    var l' := l.Release(c);
    ReleaseGood(l, c);
    forall x: nat | 0 < x < l.last
      ensures Owner(l', x) in l'.free <==> Owner(l, x) in l.free || c <= x < l.Next(c)
    {
      MergeUpOwner(l, c, x);
      ReleaseOwner(l, c, x);
    }
  }

  lemma MergeUpOwner(l: Layout, c: nat, x: nat)
    requires l.Good() && c in l.Live() && 0 < x < l.last
    ensures l.MergeUp(c).WellFormed()
    ensures Owner(l.MergeUp(c), x) == if l.Next(c) in l.free && Owner(l, x) == l.Next(c) then c else Owner(l, x)
  {
    var l', n := l.MergeUp(c), l.Next(c);
    MergeUpGood(l, c);
    if n in l.free {
      PrevOfNext(l, c);
      DropStart(l, l', n);
      OwnerUnique(l', x, if Owner(l, x) == n then c else Owner(l, x));
    }
  }

  lemma ReleaseOwner(l: Layout, c: nat, x: nat)
    requires l.Good() && c in l.Live() && 0 < x < l.last
    ensures l.Release(c).WellFormed()
    ensures Owner(l.Release(c), x) in l.Release(c).free <==> Owner(l, x) in l.free || c <= x < l.Next(c)
  {
    var l1, l', n := l.MergeUp(c), l.Release(c), l.Next(c);
    MergeUpGood(l, c);
    ReleaseGood(l, c);
    MergeUpOwner(l, c, x);
    if n in l.free { UnlinkGood(l, n); }
    if c <= x < n { OwnerUnique(l, x, c); }
    if l.Prev(c) in l.free {
      DropStart(l1, l', c);
      OwnerUnique(l', x, if Owner(l1, x) == c then l.Prev(c) else Owner(l1, x));
    } else {
      OwnerUnique(l', x, Owner(l1, x));
    }
  }

  /** Freeing what was just allocated restores the block partition, and the free list up to order. */
  lemma MallocThenFree(l: Layout, c: nat, k: nat)
    requires l.Good() && c in l.free && 0 < k <= l.Size(c)
    ensures l.Alloc(c, k).Good() && c in l.Alloc(c, k).Live()
    ensures l.Alloc(c, k).Release(c).blocks == l.blocks
    ensures multiset(l.Alloc(c, k).Release(c).free) == multiset(l.free)
  {
    var l1, i := l.Alloc(c, k), IndexOf(l.free, c);
    AllocGood(l, c, k);
    AllocNeighbours(l, c, k);
    if l.Size(c) == k {
      assert l1.Release(c).free == [c] + RemoveAt(l.free, i);
      RemoveAtMultiset(l.free, i);
    } else {
      CarveShape(l, c, k);
      ReplaceAtMembers(l.free, i, c + k);
      var j := IndexOf(l1.free, c + k);
      assert i == j by { assert l1.free[i] == c + k; }
      assert RemoveAt(l1.free, i) == RemoveAt(l.free, i);
      assert l1.Release(c).free == [c] + RemoveAt(l.free, i);
      RemoveAtMultiset(l.free, i);
    }
  }

  lemma AllocNeighbours(l: Layout, c: nat, k: nat)
    requires l.Good() && c in l.free && 0 < k <= l.Size(c)
    ensures l.Alloc(c, k).WellFormed() && l.Alloc(c, k).Prev(c) == l.Prev(c) && l.Prev(c) !in l.Alloc(c, k).free
    ensures l.Alloc(c, k).Next(c) == c + k && (c + k in l.Alloc(c, k).free <==> k < l.Size(c))
  {
    AllocGood(l, c, k);
    NextOfPrev(l, c);
    if l.Size(c) == k {
      UnlinkGood(l, c);
    } else {
      CarveShape(l, c, k);
      AddStart(l, l.Carve(c, k), c, c + k);
    }
  }

  lemma RemoveAtMultiset(s: seq<nat>, k: nat)
    requires k < |s|
    ensures multiset([s[k]] + RemoveAt(s, k)) == multiset(s)
  {
    assert s == s[..k] + [s[k]] + s[k + 1..];
  }

  /** Once nothing is live, the heap is back to the single free block it started with. */
  lemma AllFreed(l: Layout)
    requires l.Good() && l.Live() == {}
    ensures l == Initial(l.last)
  {
    assert 1 !in l.Live() && l.Next(1) !in l.Live();
    assert l.Next(1) == l.last;
    assert l.blocks == {0, 1, l.last};
    assert forall i :: 0 <= i < |l.free| ==> l.free[i] == 1;
    DistinctBound(l.free, {1});
    assert l.free == [1];
  }
}
