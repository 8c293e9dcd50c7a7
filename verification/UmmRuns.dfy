/**
 Whole runs of a client against the allocator. A client sees a store: the live blocks and their
 words. It chooses each call from the results of the earlier ones. Beside the store, a run
 records the layout, which decides when the allocator must refuse.
 */
module UmmRuns {
  import opened HeapLayout
  import opened HeapImage
  import opened UmmHeap

  type Store = map<nat, seq<Word>>

  datatype Snapshot = Snapshot(layout: Layout, store: Store) {
    ghost predicate Sound() {
      layout.Good() && store.Keys == layout.Live()
    }
  }

  datatype Call =
    | Malloc(size: nat)
    | Calloc(num: nat, itemSize: nat)
    | Realloc(p: Ptr, size: nat)
    | Free(p: Ptr)
    | Write(p: Ptr, j: nat, b: Byte)

  ghost predicate Names(v: Store, p: Ptr) {
    p.Addr? && p == DataOf(CellOf(p)) && CellOf(p) in v
  }

  ghost predicate Countable(size: nat) {
    size <= SIZE_MAX && (0 < size ==> 0 < UmmBlocks(size))
  }

  /** What a caller owes the allocator. */
  ghost predicate Allowed(s: Snapshot, call: Call)
    requires s.Sound()
  {
    match call
    case Malloc(size) => Countable(size)
    case Calloc(num, itemSize) =>
      var total := CallocTotal(num, itemSize);
      && num <= SIZE_MAX && itemSize <= SIZE_MAX
      && (total <= MAX_REQUEST || (UmmBlocks(total) != 0 && !s.layout.Fits(UmmBlocks(total))))
    case Realloc(p, size) => Countable(size) && (p.Null? || Names(s.store, p))
    case Free(p) => p.Null? || Names(s.store, p)
    case Write(p, j, b) => Names(s.store, p) && j < 2 * |s.store[CellOf(p)]|
  }

  ghost predicate Served(s: Snapshot, s': Snapshot, k: nat, r: Ptr)
    requires s.Sound()
  {
    Allocated(s.layout, s.store, s'.layout, s'.store, k, r)
  }

  ghost predicate Released(s: Snapshot, s': Snapshot, p: Ptr)
    requires s.Sound() && (p.Null? || Names(s.store, p))
  {
    s' == if p.Null? then s else Snapshot(s.layout.Release(CellOf(p)), s.store - {CellOf(p)})
  }

  /** The only way in which a call may change what a run records, when it must refuse included. */
  ghost predicate Effect(s: Snapshot, call: Call, r: Ptr, s': Snapshot)
    requires s.Sound() && s'.Sound() && Allowed(s, call)
  {
    && s'.layout.last == s.layout.last
    && match call
       case Malloc(size) =>
         if size == 0 then r == Null && s' == s else Served(s, s', UmmBlocks(size), r)
       case Calloc(num, itemSize) =>
         var total := CallocTotal(num, itemSize);
         && (if total == 0 then r == Null && s' == s
             else Served(s, s', UmmBlocks(total), r) && (r.Addr? ==> ZeroBytes(s'.store[CellOf(r)], total)))
         && (0 < itemSize * num <= MAX_REQUEST && r.Addr? ==>
               CellOf(r) in s'.store && ZeroBytes(s'.store[CellOf(r)], itemSize * num))
       case Realloc(p, size) =>
         if size == 0 then r == Null && Released(s, s', p)
         else if p.Null? then Served(s, s', UmmBlocks(size), r)
         else Reallocated(s.layout, s.store, s'.layout, s'.store, CellOf(p), UmmBlocks(size), r)
       case Free(p) => r == Null && Released(s, s', p)
       case Write(p, j, b) => r == p && s' == s.(store := s.store[CellOf(p) := PokeByte(s.store[CellOf(p)], j, b)])
  }

  ghost function Snap(h: Heap): (s: Snapshot)
    requires h.Valid()
    reads h, h.mem
    ensures s.Sound()
  {
    Snapshot(h.layout, h.View())
  }

  lemma ReadyIfNamed(h: Heap, p: Ptr)
    requires h.Valid() && (p.Null? || Names(h.View(), p))
    ensures p.Addr? ==> h.ready && h.Holds(p) && |h.View()[CellOf(p)]| == 4 * h.layout.Size(CellOf(p)) - 2
  {
    hide Stores, Layout.Coalesced, Payload;
  }

  /** Each call, on any valid heap, has its effect. */
  method Perform(h: Heap, call: Call) returns (r: Ptr)
    requires h.Valid() && Allowed(Snap(h), call)
    modifies h, h.mem
    ensures h.Valid()
    ensures Effect(old(Snap(h)), call, r, Snap(h))
  {
    hide Stores, HeapImage.View, Layout.Good, Layout.Fits, Layout.BestFit, Layout.Alloc, Layout.Release, ZeroBytes, Relocated;
    hide Allocated, Reallocated, PokeByte;
    match call {
      case Malloc(size) => r := h.Malloc(size);
      case Calloc(num, itemSize) => r := PerformCalloc(h, num, itemSize);
      case Realloc(p, size) => ReadyIfNamed(h, p); r := h.Realloc(p, size);
      case Free(p) => ReadyIfNamed(h, p); h.Free(p); r := Null;
      case Write(p, j, b) => ReadyIfNamed(h, p); h.Write(p, j, b); r := p;
    }
  }

  method PerformCalloc(h: Heap, num: nat, itemSize: nat) returns (r: Ptr)
    requires h.Valid() && Allowed(Snap(h), Calloc(num, itemSize))
    modifies h, h.mem
    ensures h.Valid()
    ensures Effect(old(Snap(h)), Calloc(num, itemSize), r, Snap(h))
  {
    hide Stores, HeapImage.View, Layout.Good, Layout.Fits, Layout.BestFit, Layout.Alloc, ZeroBytes;
    r := h.Calloc(num, itemSize);
  }

  // ----- runs

  /** The call made after `k` results. */
  function CallAt(client: seq<Ptr> -> Call, results: seq<Ptr>, k: nat): (call: Call)
    requires k <= |results|
  {
    client(results[..k])
  }

  /** `snaps` and `results` are what a run of `client` goes through over |results| calls. */
  ghost predicate Trace(client: seq<Ptr> -> Call, snaps: seq<Snapshot>, results: seq<Ptr>) {
    && |snaps| == |results| + 1
    && (forall i :: 0 <= i < |snaps| ==> snaps[i].Sound())
    && forall i: nat {:trigger CallAt(client, results, i)} :: i < |results| ==>
         && Allowed(snaps[i], CallAt(client, results, i))
         && Effect(snaps[i], CallAt(client, results, i), results[i], snaps[i + 1])
  }

  /** Whatever the allocator answers, the next call is one the client may make. */
  ghost predicate WellBehaved(client: seq<Ptr> -> Call, start: Snapshot) {
    forall snaps: seq<Snapshot>, results: seq<Ptr> ::
      Trace(client, snaps, results) && snaps[0] == start ==> Allowed(snaps[|results|], client(results))
  }

  lemma TraceExtend(client: seq<Ptr> -> Call, snaps: seq<Snapshot>, results: seq<Ptr>, r: Ptr, s: Snapshot)
    requires Trace(client, snaps, results) && s.Sound()
    requires Allowed(snaps[|results|], client(results)) && Effect(snaps[|results|], client(results), r, s)
    ensures Trace(client, snaps + [s], results + [r])
  {
    hide Effect, Allowed, Snapshot.Sound;
    var snaps', results' := snaps + [s], results + [r];
    forall i: nat | i < |results'|
      ensures Allowed(snaps'[i], CallAt(client, results', i))
      ensures Effect(snaps'[i], CallAt(client, results', i), results'[i], snaps'[i + 1])
    {
      assert results'[..i] == results[..i];
      assert CallAt(client, results', i) == CallAt(client, results, i);
      assert results[..|results|] == results;
    }
  }

  /** Any number of calls by any well-behaved client keeps the heap valid, and every call does exactly what it
      promises. */
  method Run(h: Heap, client: seq<Ptr> -> Call, n: nat) returns (results: seq<Ptr>, ghost snaps: seq<Snapshot>)
    requires h.Valid() && WellBehaved(client, Snap(h))
    modifies h, h.mem
    ensures h.Valid() && |results| == n
    ensures Trace(client, snaps, results)
    ensures snaps[0] == old(Snap(h)) && snaps[n] == Snap(h)
  {
    hide Effect, Allowed, Snapshot.Sound, Snap;
    results, snaps := [], [Snap(h)];
    while |results| < n
      invariant h.Valid() && |results| <= n
      invariant Trace(client, snaps, results)
      invariant snaps[0] == old(Snap(h)) && snaps[|results|] == Snap(h)
    {
      var r := Perform(h, client(results));
      TraceExtend(client, snaps, results, r, Snap(h));
      results, snaps := results + [r], snaps + [Snap(h)];
    }
  }

  /** The call is given block `c` to change or to free. */
  ghost predicate Concerns(call: Call, c: nat) {
    match call
    case Malloc(_) => false
    case Calloc(_, _) => false
    case Realloc(p, _) => p.Addr? && CellOf(p) == c
    case Free(p) => p.Addr? && CellOf(p) == c
    case Write(p, _, _) => p.Addr? && CellOf(p) == c
  }

  lemma ServedElsewhere(s: Snapshot, s': Snapshot, k: nat, r: Ptr, c: nat)
    requires s.Sound() && Served(s, s', k, r) && c in s.store
    ensures c in s'.store && s'.store[c] == s.store[c]
  {
    hide Layout.Good, Layout.Fits, Layout.BestFit, Layout.Alloc;
    if r.Addr? { assert c in s'.store - {CellOf(r)}; }
  }

  lemma EffectElsewhere(s: Snapshot, call: Call, r: Ptr, s': Snapshot, c: nat)
    requires s.Sound() && s'.Sound() && Allowed(s, call) && Effect(s, call, r, s')
    requires c in s.store && !Concerns(call, c)
    ensures c in s'.store && s'.store[c] == s.store[c]
  {
    hide Layout.Good, Layout.Fits, Layout.BestFit, Layout.Alloc, Layout.Release, Served, ZeroBytes, PokeByte;
    match call
    case Malloc(size) => if size != 0 { ServedElsewhere(s, s', UmmBlocks(size), r, c); }
    case Calloc(num, itemSize) =>
      var total := CallocTotal(num, itemSize);
      if total != 0 { ServedElsewhere(s, s', UmmBlocks(total), r, c); }
    case Realloc(p, size) =>
      if p.Null? {
        if size != 0 { ServedElsewhere(s, s', UmmBlocks(size), r, c); }
      } else if size != 0 && r.Addr? {
        assert c in s.store - {CellOf(p)};
        assert c in s'.store - {CellOf(r)};
      }
    case _ =>
  }

  /** A live block that no call is given stays live with its words unchanged, however long the run. */
  lemma {:induction false} Undisturbed(client: seq<Ptr> -> Call, snaps: seq<Snapshot>, results: seq<Ptr>, c: nat, i: nat, j: nat)
    requires Trace(client, snaps, results) && i <= j <= |results| && c in snaps[i].store
    requires forall k: nat {:trigger CallAt(client, results, k)} :: i <= k < j ==> !Concerns(CallAt(client, results, k), c)
    ensures c in snaps[j].store && snaps[j].store[c] == snaps[i].store[c]
    decreases j - i
  {
    hide Effect, Allowed, Concerns, Snapshot.Sound;
    if i < j {
      Undisturbed(client, snaps, results, c, i, j - 1);
      EffectElsewhere(snaps[j - 1], CallAt(client, results, j - 1), results[j - 1], snaps[j], c);
    }
  }

  /** At every point of a run, the block sizes along the chain add up to the same number of cells. */
  lemma {:induction false} Conserved(client: seq<Ptr> -> Call, snaps: seq<Snapshot>, results: seq<Ptr>, i: nat)
    requires Trace(client, snaps, results) && i <= |results|
    ensures snaps[i].layout.last == snaps[0].layout.last && SizesFrom(snaps[i].layout, 0) == snaps[0].layout.last
  {
    hide Allowed;
    if 0 < i {
      Conserved(client, snaps, results, i - 1);
      assert Allowed(snaps[i - 1], CallAt(client, results, i - 1));
    }
    SizesAddUp(snaps[i].layout, 0);
  }

  /** A run that ends with nothing live ends in the layout that umm_init made. */
  lemma EmptyStore(s: Snapshot)
    requires s.Sound() && s.store == map[]
    ensures s.layout == Initial(s.layout.last)
  {
    assert s.layout.Live() == s.store.Keys;
    AllFreed(s.layout);
  }
}
