/**
 The disassembly loops of Capstone's cs.c: the batch form with its growing result buffer and
 the single-step form, for an arbitrary instruction decoder.
 */
module Capstone {

  type Byte = b: int | 0 <= b < 0x100

  const ADDRESS_MODULUS: nat := 0x1_0000_0000_0000_0000
  const INSN_CACHE_SIZE: nat := 8
  const MAX_BYTES: nat := 16

  /** What `handle->disasm` reports: an instruction id and how many bytes it took, or failure. */
  datatype Decoded = Broken | Good(id: nat, size: nat)

  /** The architecture's decoder, on the bytes from the current position on and their address. */
  type Engine = (seq<Byte>, nat) -> Decoded

  ghost predicate Sound(engine: Engine) {
    forall code: seq<Byte>, address: nat {:trigger engine(code, address)} ::
      engine(code, address).Good? ==> 1 <= engine(code, address).size <= |code|
  }

  /** An instruction as the caller sees it; `detail` is a memory block, or 0 for NULL. */
  datatype Insn = Insn(id: nat, address: nat, size: nat, bytes: seq<Byte>, detail: nat)

  datatype Options = Options(engine: Engine, detail: bool, skipdata: bool, skipdataSize: nat)

  ghost predicate Usable(o: Options) {
    Sound(o.engine) && (o.skipdata ==> 1 <= o.skipdataSize <= MAX_BYTES)
  }

  // ----- one instruction

  /** An instruction without its detail, and the bytes it moves on by; or the end of the listing. */
  datatype Item = Stop | Item(insn: Insn, advance: nat)

  /** fill_insn keeps the last MAX_BYTES bytes of an instruction. */
  function Clip(size: nat): (r: nat) {
    if size < MAX_BYTES then size else MAX_BYTES
  }

  predicate Entry(item: Item) {
    item.Item? && 1 <= item.advance && item.insn.detail == 0 && item.insn.size == |item.insn.bytes| == Clip(item.advance)
  }

  /** The decoder's word on the bytes at `address`: the instruction it sees there, or a piece of data
      to skip, is `n` bytes long and `insn` carries the last of them, sixteen at most. */
  predicate Decodes(o: Options, code: seq<Byte>, address: nat, insn: Insn, n: nat) {
    && 1 <= n <= |code| && insn.address == address
    && (match o.engine(code, address)
        case Good(id, size) => insn.id == id && n == size
        case Broken => o.skipdata && insn.id == 0 && n == o.skipdataSize)
    && insn.size == (if n < 16 then n else 16) && insn.bytes == code[n - insn.size..n]
  }

  /** Neither an instruction nor data that may be skipped. */
  predicate Stuck(o: Options, code: seq<Byte>, address: nat) {
    o.engine(code, address).Broken? && (o.skipdata ==> |code| < o.skipdataSize)
  }

  function Next(o: Options, code: seq<Byte>, address: nat): (r: Item)
    requires Usable(o)
    ensures r.Item? ==> Entry(r) && r.advance <= |code| && Decodes(o, code, address, r.insn, r.advance)
    ensures r.Stop? <==> Stuck(o, code, address)
  {
    match o.engine(code, address)
    case Good(id, size) => Item(Insn(id, address, Clip(size), code[size - Clip(size)..size], 0), size)
    case Broken =>
      if !o.skipdata || |code| < o.skipdataSize then Stop
      else Item(Insn(0, address, o.skipdataSize, code[..o.skipdataSize], 0), o.skipdataSize)
  }

  function Advance(address: nat, n: nat): (r: nat)
    ensures r < ADDRESS_MODULUS
  {
    (address + n) % ADDRESS_MODULUS
  }

  /** The listing of `code`, cut off after `count` instructions unless `count` is 0. */
  function Listing(o: Options, code: seq<Byte>, address: nat, count: nat): (r: seq<Item>)
    requires Usable(o)
    ensures forall i :: 0 <= i < |r| ==> Entry(r[i])
    ensures count != 0 ==> |r| <= count
    decreases |code|
  {
    var item := Next(o, code, address);
    if item.Stop? then []
    else if count == 1 then [item]
    else [item] + Listing(o, code[item.advance..], Advance(address, item.advance), if count == 0 then 0 else count - 1)
  }

  /** The bytes taken by a stretch of a listing. */
  function Taken(items: seq<Item>): (r: nat)
    requires forall i :: 0 <= i < |items| ==> Entry(items[i])
  {
    if items == [] then 0 else assert Entry(items[0]); items[0].advance + Taken(items[1..])
  }

  /** The count left after `k` instructions; 0 stays "no limit". */
  function Left(count: nat, k: nat): (r: nat)
    requires count == 0 || k < count
  {
    if count == 0 then 0 else count - k
  }

  lemma {:induction false} TakenMore(items: seq<Item>, k: nat)
    requires k < |items| && forall i :: 0 <= i < |items| ==> Entry(items[i])
    ensures Taken(items[..k + 1]) == Taken(items[..k]) + items[k].advance
    decreases k
  {
    if k == 0 {
      assert items[..1] == [items[0]];
    } else {
      TakenMore(items[1..], k - 1);
      assert items[..k + 1][1..] == items[1..][..k] && items[..k][1..] == items[1..][..k - 1];
    }
  }

  lemma AdvanceNone(address: nat)
    requires address < ADDRESS_MODULUS
    ensures Advance(address, 0) == address
  {
  }

  lemma AdvanceTwice(address: nat, m: nat, n: nat)
    ensures Advance(Advance(address, m), n) == Advance(address, m + n)
  {
  }

  lemma ListingStep(o: Options, code: seq<Byte>, address: nat, count: nat)
    requires Usable(o) && Listing(o, code, address, count) != []
    ensures var items := Listing(o, code, address, count);
      && items[0] == Next(o, code, address)
      && items[0].Item? && items[0].advance <= |code|
      && (count != 1 ==>
            items == [items[0]] + Listing(o, code[items[0].advance..], Advance(address, items[0].advance), Left(count, 1)))
  {
  }

  /** What follows the first `k` entries is the listing of what they leave over. */
  lemma {:induction false} ListingSuffix(o: Options, code: seq<Byte>, address: nat, count: nat, k: nat)
    requires Usable(o) && address < ADDRESS_MODULUS
    requires k <= |Listing(o, code, address, count)| && (count == 0 || k < count)
    ensures var items := Listing(o, code, address, count);
      var start := Taken(items[..k]);
      && start <= |code|
      && items[k..] == Listing(o, code[start..], Advance(address, start), Left(count, k))
    decreases k
  {
    hide Next, Advance, Clip, Usable, Listing;
    var items := Listing(o, code, address, count);
    if k == 0 {
      AdvanceNone(address);
      assert code[0..] == code && items[0..] == items;
    } else {
      ListingStep(o, code, address, count);
      var first := items[0];
      var code', address' := code[first.advance..], Advance(address, first.advance);
      var rest := Listing(o, code', address', Left(count, 1));
      ListingSuffix(o, code', address', Left(count, 1), k - 1);
      var start := Taken(rest[..k - 1]);
      assert items[..k][1..] == rest[..k - 1];
      AdvanceTwice(address, first.advance, start);
      assert code'[start..] == code[first.advance + start..];
    }
  }

  /** Entry `k` starts where the entries before it end and is what the decoder says there. */
  lemma Tiles(o: Options, code: seq<Byte>, address: nat, count: nat, k: nat)
    requires Usable(o) && address < ADDRESS_MODULUS && k < |Listing(o, code, address, count)|
    ensures var items := Listing(o, code, address, count);
      var start := Taken(items[..k]);
      && start + items[k].advance == Taken(items[..k + 1]) <= |code|
      && Decodes(o, code[start..], (address + start) % 0x1_0000_0000_0000_0000, items[k].insn, items[k].advance)
  {
    hide Next, Decodes, Usable;
    var items := Listing(o, code, address, count);
    TakenMore(items, k);
    ListingSuffix(o, code, address, count, k);
    var start := Taken(items[..k]);
    var rest := Listing(o, code[start..], Advance(address, start), Left(count, k));
    assert rest[0] == items[k] == Next(o, code[start..], Advance(address, start));
  }

  /** A listing is as long as was asked for, or ends where the decoder is stuck. */
  lemma Complete(o: Options, code: seq<Byte>, address: nat, count: nat)
    requires Usable(o) && address < ADDRESS_MODULUS
    ensures var items := Listing(o, code, address, count);
      var end := Taken(items);
      && end <= |code|
      && (|items| == count != 0 || Stuck(o, code[end..], (address + end) % 0x1_0000_0000_0000_0000))
  {
    hide Next, Usable, Listing, Stuck;
    var items := Listing(o, code, address, count);
    assert items[..|items|] == items;
    if |items| == count != 0 {
      Tiles(o, code, address, count, |items| - 1);
    } else {
      ListingSuffix(o, code, address, count, |items|);
      ListingStop(o, code[Taken(items)..], Advance(address, Taken(items)), Left(count, |items|));
    }
  }

  lemma ListingStop(o: Options, code: seq<Byte>, address: nat, count: nat)
    requires Usable(o) && Listing(o, code, address, count) == []
    ensures Stuck(o, code, address)
  {
  }

  // ----- what a caller is told

  /** Instructions one after the other from the start of `code`, at the places `starts`: each is what
      the decoder says of its place, and they go on until `count` is reached or the decoder is stuck. */
  ghost predicate Disassembly(o: Options, code: seq<Byte>, address: nat, count: nat, insns: seq<Insn>, starts: seq<nat>) {
    && |starts| == |insns| + 1 && starts[0] == 0
    && (forall k :: 0 <= k < |starts| ==> starts[k] <= |code|)
    && (forall k :: 0 <= k < |insns| ==>
          && starts[k] < starts[k + 1]
          && Decodes(o, code[starts[k]..], (address + starts[k]) % 0x1_0000_0000_0000_0000, insns[k], starts[k + 1] - starts[k]))
    && (count != 0 ==> |insns| <= count)
    && var end := starts[|insns|];
       |insns| == count != 0 || Stuck(o, code[end..], (address + end) % 0x1_0000_0000_0000_0000)
  }

  ghost predicate Disassembled(o: Options, code: seq<Byte>, address: nat, count: nat, insns: seq<Insn>) {
    exists starts :: Disassembly(o, code, address, count, insns, starts)
  }

  // ----- memory

  /** The user's allocator, as the set of blocks it has given out. It may fail at any time. */
  class Memory {
    var live: set<nat>
    var next: nat

    ghost predicate Valid()
      reads this
    {
      0 < next && forall p :: p in live ==> 0 < p < next
    }

    constructor ()
      ensures Valid() && live == {}
    {
      live, next := {}, 1;
    }

    /** A block no one else holds, or 0. */
    method Malloc() returns (p: nat)
      requires Valid()
      modifies this
      ensures Valid()
      ensures p == 0 ==> live == old(live)
      ensures p != 0 ==> p !in old(live) && live == old(live) + {p}
    {
      if * {
        p := 0;
      } else {
        p, next, live := next, next + 1, live + {next};
      }
    }

    /** Only NULL or a live block may be freed, so freeing twice is ruled out. */
    method Free(p: nat)
      requires Valid() && (p == 0 || p in live)
      modifies this
      ensures Valid() && live == old(live) - {p}
    {
      live := live - {p};
    }

    /** The block moves, or stays as it is when the allocator fails. */
    method Realloc(p: nat) returns (q: nat)
      requires Valid() && p in live
      modifies this
      ensures Valid()
      ensures q == 0 ==> live == old(live)
      ensures q != 0 ==> q !in old(live) && live == old(live) - {p} + {q}
    {
      if * {
        q := 0;
      } else {
        q, next, live := next, next + 1, live - {p} + {next};
      }
    }
  }

  /** The detail blocks that a stretch of the result buffer owns. */
  function Owned(insns: seq<Insn>): (r: set<nat>) {
    set i | 0 <= i < |insns| && insns[i].detail != 0 :: insns[i].detail
  }

  /** No two entries share a detail block. */
  predicate Unshared(insns: seq<Insn>) {
    forall i, j :: 0 <= i < j < |insns| && insns[i].detail != 0 ==> insns[i].detail != insns[j].detail
  }

  lemma OwnedAppend(insns: seq<Insn>, insn: Insn)
    ensures Owned(insns + [insn]) == if insn.detail == 0 then Owned(insns) else Owned(insns) + {insn.detail}
    ensures Unshared(insns) && insn.detail !in Owned(insns) ==> Unshared(insns + [insn])
  {
    var all := insns + [insn];
    forall d | d in Owned(insns)
      ensures d in Owned(all)
    {
      var i :| 0 <= i < |insns| && insns[i].detail == d && d != 0;
      assert all[i].detail == d;
    }
    assert all[|insns|] == insn;
  }

  lemma OwnedTail(insns: seq<Insn>, k: nat)
    requires k < |insns| && Unshared(insns)
    ensures insns[k].detail != 0 ==> insns[k].detail in Owned(insns[k..])
    ensures Owned(insns[k + 1..]) == Owned(insns[k..]) - {insns[k].detail}
  {
  }

  /** The loop that frees the details of the first `c` entries. */
  method FreeDetails(mem: Memory, total: array<Insn>, c: nat)
    requires mem.Valid() && c <= total.Length && Unshared(total[..c]) && Owned(total[..c]) <= mem.live
    modifies mem
    ensures mem.Valid() && mem.live == old(mem.live) - Owned(total[..c])
  {
    ghost var insns := total[..c];
    var i := 0;
    while i < c
      invariant 0 <= i <= c && mem.Valid()
      invariant mem.live == old(mem.live) - (Owned(insns) - Owned(insns[i..]))
      invariant Owned(insns[i..]) <= Owned(insns)
    {
      OwnedTail(insns, i);
      mem.Free(total[i].detail);
      i := i + 1;
    }
    assert Owned(insns[c..]) == {};
  }

  // ----- cs_disasm_iter

  /** The single step: on success the cursor moves on, otherwise it stays. */
  method DisasmIter(o: Options, code: seq<Byte>, address: nat, slot: Insn)
    returns (ok: bool, newCode: seq<Byte>, newAddress: nat, insn: Insn)
    requires Usable(o)
    ensures |newCode| <= |code|
    ensures ok ==>
      && insn.detail == slot.detail && Decodes(o, code, address, insn, |code| - |newCode|)
      && newCode == code[|code| - |newCode|..] && newAddress == (address + |code| - |newCode|) % 0x1_0000_0000_0000_0000
    ensures if ok then Next(o, code, address) == Item(Plain(insn), |code| - |newCode|) else Next(o, code, address).Stop?
    ensures !ok ==> Stuck(o, code, address) && newCode == code && newAddress == address && insn == slot.(address := address)
  {
    newCode, newAddress := code, address;
    insn := slot.(address := address);
    var d := o.engine(code, address);
    if d.Good? {
      var copySize := Clip(d.size);
      insn := insn.(id := d.id, size := copySize, bytes := code[d.size - copySize..d.size]);
      newCode, newAddress := code[d.size..], Advance(address, d.size);
    } else {
      if !o.skipdata || o.skipdataSize > |code| {
        return false, newCode, newAddress, insn;
      }
      insn := insn.(id := 0, size := o.skipdataSize, bytes := code[..o.skipdataSize]);
      newCode, newAddress := code[o.skipdataSize..], Advance(address, o.skipdataSize);
    }
    ok := true;
  }

  // ----- cs_disasm

  function Plain(insn: Insn): (r: Insn) {
    insn.(detail := 0)
  }

  /** The first entries of the buffer are the first entries of the listing, details aside. */
  ghost predicate Shows(insns: seq<Insn>, items: seq<Item>) {
    && |insns| <= |items|
    && (forall i :: 0 <= i < |items| ==> items[i].Item?)
    && forall i :: 0 <= i < |insns| ==> Plain(insns[i]) == items[i].insn
  }

  function Starts(items: seq<Item>): (r: seq<nat>)
    requires forall i :: 0 <= i < |items| ==> Entry(items[i])
    ensures |r| == |items| + 1
  {
    seq(|items| + 1, k requires 0 <= k <= |items| => Taken(items[..k]))
  }

  /** The listing is a disassembly in this sense. */
  lemma ListingDisassembles(o: Options, code: seq<Byte>, address: nat, count: nat, insns: seq<Insn>)
    requires Usable(o) && address < ADDRESS_MODULUS
    requires |insns| == |Listing(o, code, address, count)| && Shows(insns, Listing(o, code, address, count))
    ensures Disassembly(o, code, address, count, insns, Starts(Listing(o, code, address, count)))
    ensures Disassembled(o, code, address, count, insns)
  {
    hide Next, Usable, Listing, Stuck, Decodes, Taken, Shows;
    var items := Listing(o, code, address, count);
    var starts := Starts(items);
    Complete(o, code, address, count);
    assert items[..|items|] == items;
    assert items[..0] == [] && Taken([]) == 0 by { HoldsNothing(items); }
    forall k | 0 <= k < |insns|
      ensures var m, n := starts[k], starts[k + 1];
        m < n <= |code| && Decodes(o, code[m..], (address + m) % 0x1_0000_0000_0000_0000, insns[k], n - m)
    {
      Tiles(o, code, address, count, k);
      DecodesPlain(o, code[starts[k]..], (address + starts[k]) % 0x1_0000_0000_0000_0000, insns[k], items[k].advance);
      ShowsAt(insns, items, k);
    }
    assert starts[0] == 0 && starts[|insns|] == Taken(items);
    forall k | 0 <= k < |starts|
      ensures starts[k] <= |code|
    {
      if k < |insns| { Tiles(o, code, address, count, k); }
    }
  }

  lemma ShowsAt(insns: seq<Insn>, items: seq<Item>, k: nat)
    requires Shows(insns, items) && k < |insns|
    ensures items[k].Item? && Plain(insns[k]) == items[k].insn
  {
  }

  /** The detail does not matter. */
  lemma DecodesPlain(o: Options, code: seq<Byte>, address: nat, insn: Insn, n: nat)
    ensures Decodes(o, code, address, insn, n) <==> Decodes(o, code, address, Plain(insn), n)
  {
  }

  lemma DecodesOnce(o: Options, code: seq<Byte>, address: nat, a: Insn, m: nat, b: Insn, n: nat)
    requires Decodes(o, code, address, a, m)
    ensures !Stuck(o, code, address)
    ensures Decodes(o, code, address, b, n) ==> m == n && Plain(a) == Plain(b)
  {
  }

  lemma {:induction false} SameStart(o: Options, code: seq<Byte>, address: nat, count: nat,
                                     a: seq<Insn>, s: seq<nat>, b: seq<Insn>, t: seq<nat>, k: nat)
    requires Disassembly(o, code, address, count, a, s) && Disassembly(o, code, address, count, b, t)
    requires k <= |a| && k <= |b|
    ensures s[..k + 1] == t[..k + 1]
    ensures forall i :: 0 <= i < k ==> Plain(a[i]) == Plain(b[i])
  {
    hide Decodes, Stuck, Plain;
    if k > 0 {
      SameStart(o, code, address, count, a, s, b, t, k - 1);
      assert s[k - 1] == s[..k][k - 1] == t[..k][k - 1] == t[k - 1];
      DecodesOnce(o, code[s[k - 1]..], (address + s[k - 1]) % 0x1_0000_0000_0000_0000,
                  a[k - 1], s[k] - s[k - 1], b[k - 1], t[k] - t[k - 1]);
    }
  }

  /** It leaves no choice, details aside. */
  lemma DisassemblyUnique(o: Options, code: seq<Byte>, address: nat, count: nat,
                          a: seq<Insn>, s: seq<nat>, b: seq<Insn>, t: seq<nat>)
    requires Disassembly(o, code, address, count, a, s) && Disassembly(o, code, address, count, b, t)
    ensures |a| == |b| && s == t && forall i :: 0 <= i < |a| ==> Plain(a[i]) == Plain(b[i])
  {
    hide Decodes, Stuck, Plain;
    var k := if |a| < |b| then |a| else |b|;
    SameStart(o, code, address, count, a, s, b, t, k);
    assert s[k] == s[..k + 1][k] == t[..k + 1][k] == t[k];
    if k < |a| { DecodesOnce(o, code[s[k]..], (address + s[k]) % 0x1_0000_0000_0000_0000, a[k], s[k + 1] - s[k], a[k], s[k + 1] - s[k]); }
    if k < |b| { DecodesOnce(o, code[t[k]..], (address + t[k]) % 0x1_0000_0000_0000_0000, b[k], t[k + 1] - t[k], b[k], t[k + 1] - t[k]); }
  }

  lemma ShowsAppend(insns: seq<Insn>, insn: Insn, items: seq<Item>)
    requires Shows(insns, items) && |insns| < |items| && items[|insns|].Item? && Plain(insn) == items[|insns|].insn
    ensures Shows(insns + [insn], items)
  {
  }

  /** One turn of the loop up to the point where the entry counts: fills slot `c`, or frees its
      detail and reports 0. */
  method FillSlot(o: Options, mem: Memory, total: array<Insn>, c: nat, code: seq<Byte>, address: nat) returns (nextOffset: nat)
    requires Usable(o) && mem.Valid() && c < total.Length
    modifies mem, total
    ensures mem.Valid()
    ensures total[..c] == old(total[..c])
    ensures nextOffset == 0 <==> Next(o, code, address).Stop?
    ensures nextOffset == 0 ==> mem.live == old(mem.live)
    ensures nextOffset != 0 ==>
      && Next(o, code, address) == Item(Plain(total[c]), nextOffset)
      && (!o.detail ==> total[c].detail == 0)
      && (total[c].detail == 0 ==> mem.live == old(mem.live))
      && (total[c].detail != 0 ==> total[c].detail !in old(mem.live) && mem.live == old(mem.live) + {total[c].detail})
  {
    var detail := 0;
    if o.detail { detail := mem.Malloc(); }
    total[c] := total[c].(detail := detail, address := address);
    var d := o.engine(code, address);
    if d.Good? {
      var copySize := Clip(d.size);
      total[c] := total[c].(id := d.id, size := copySize, bytes := code[d.size - copySize..d.size]);
      nextOffset := d.size;
    } else {
      if o.detail { mem.Free(total[c].detail); }
      if !o.skipdata || o.skipdataSize > |code| {
        return 0;
      }
      total[c] := Insn(0, address, o.skipdataSize, code[..o.skipdataSize], 0);
      nextOffset := o.skipdataSize;
    }
  }

  /** cs_mem_realloc of the buffer: a larger or smaller array with the same front, or failure. */
  method Resize(mem: Memory, id: nat, total: array<Insn>, keep: nat, size: nat) returns (newId: nat, newTotal: array<Insn>)
    requires mem.Valid() && id in mem.live && keep <= total.Length && keep <= size
    modifies mem
    ensures mem.Valid()
    ensures newId == 0 ==> mem.live == old(mem.live)
    ensures newId != 0 ==>
      && newId !in old(mem.live) && mem.live == old(mem.live) - {id} + {newId}
      && fresh(newTotal) && newTotal.Length == size && newTotal[..keep] == total[..keep]
  {
    newTotal := total;
    newId := mem.Realloc(id);
    if newId != 0 {
      newTotal := new Insn[size](_ => Insn(0, 0, 0, [], 0));
      for i := 0 to keep
        invariant newTotal[..i] == total[..i]
        modifies newTotal
      {
        newTotal[i] := total[i];
      }
    }
  }

  datatype Output = Untouched | NullBuffer | Buffer(id: nat, insns: array<Insn>)

  /** Everything the buffer with its first entries owns, beside what was live before. */
  ghost predicate Holds(mem: Memory, before: set<nat>, id: nat, insns: seq<Insn>)
    reads mem
  {
    mem.Valid() && Accounts(mem.live, before, id, insns)
  }

  /** The live blocks are those from before, the buffer and one block for each detail, all distinct. */
  ghost predicate Accounts(live: set<nat>, before: set<nat>, id: nat, insns: seq<Insn>) {
    && Unshared(insns) && id !in before && id !in Owned(insns) && before !! Owned(insns)
    && live == before + {id} + Owned(insns)
  }

  lemma HoldsAppend(mem: Memory, before: set<nat>, live: set<nat>, id: nat, insns: seq<Insn>, insn: Insn)
    requires mem.Valid() && Accounts(live, before, id, insns)
    requires insn.detail == 0 ==> mem.live == live
    requires insn.detail != 0 ==> insn.detail !in live && mem.live == live + {insn.detail}
    ensures Holds(mem, before, id, insns + [insn])
  {
    OwnedAppend(insns, insn);
    assert 0 !in Owned(insns);
  }

  lemma HoldsNothing(items: seq<Item>)
    requires forall i :: 0 <= i < |items| ==> Entry(items[i])
    ensures Owned([]) == {} && Unshared([]) && Shows([], items) && Taken([]) == 0
  {
  }

  predicate Unfinished(count: nat, c: nat) {
    count == 0 || c < count
  }

  /** The entry after the first `c`: what the decoder says of the bytes left over. */
  lemma ListingHead(o: Options, code: seq<Byte>, address: nat, count: nat, c: nat)
    requires Usable(o) && address < ADDRESS_MODULUS && Unfinished(count, c) && c <= |Listing(o, code, address, count)|
    ensures var items := Listing(o, code, address, count);
      var pos := Taken(items[..c]);
      && pos <= |code|
      && (c == |items| <==> Next(o, code[pos..], Advance(address, pos)).Stop?)
      && (c < |items| ==>
            && items[c] == Next(o, code[pos..], Advance(address, pos)) && items[c].Item?
            && 1 <= items[c].advance && Taken(items[..c + 1]) == pos + items[c].advance <= |code|
            && (c + 1 == count ==> c + 1 == |items|))
  {
    var items := Listing(o, code, address, count);
    ListingSuffix(o, code, address, count, c);
    if c < |items| { TakenMore(items, c); }
  }

  /** A listing has taken all of the input only when it is complete. */
  lemma ListingEnd(o: Options, code: seq<Byte>, address: nat, count: nat, c: nat)
    requires Usable(o) && address < ADDRESS_MODULUS && Unfinished(count, c) && c <= |Listing(o, code, address, count)|
    requires Taken(Listing(o, code, address, count)[..c]) == |code|
    ensures c == |Listing(o, code, address, count)|
  {
    ListingHead(o, code, address, count, c);
  }

  /** The buffer grows by the factor 8/5, in 32-bit arithmetic. */
  function Grow(cacheSize: nat): (r: nat) {
    cacheSize * 8 % 0x1_0000_0000 / 5
  }

  /** Growth is exact as long as eight times the cache fits 32 bits, and not beyond; the first size that fails gives 0. */
  lemma GrowWraps(cacheSize: nat)
    ensures Grow(cacheSize) == cacheSize * 8 / 5 <==> cacheSize < 0x2000_0000
    ensures Grow(0x2000_0000) == 0
  {
  }

  /** Frees the details and the buffer after a failed resize. */
  method GiveUp(o: Options, mem: Memory, id: nat, total: array<Insn>, c: nat, ghost before: set<nat>)
    requires c <= total.Length && Holds(mem, before, id, total[..c]) && (!o.detail ==> Owned(total[..c]) == {})
    modifies mem
    ensures mem.Valid() && mem.live == before
  {
    if o.detail { FreeDetails(mem, total, c); }
    mem.Free(id);
  }

  /** Below this many entries the cache, at most three eighths of the buffer and a little, is smaller than 2^29. */
  const MAX_ENTRIES: nat := 1_431_655_752

  /** The last cache is a limited share of the buffer. */
  predicate Share(cacheSize: nat, length: nat) {
    INSN_CACHE_SIZE <= cacheSize && 8 * cacheSize <= 3 * length + 40
  }

  /** Growth is exact as long as the buffer is smaller than that, and keeps the share. */
  lemma GrowExact(cacheSize: nat, length: nat)
    requires Share(cacheSize, length) && length < MAX_ENTRIES
    ensures Grow(cacheSize) == cacheSize * 8 / 5 && cacheSize < Grow(cacheSize) && Share(Grow(cacheSize), length + Grow(cacheSize))
  {
  }

  /** Makes room for another entry when the cache is full. */
  method Reserve(o: Options, mem: Memory, id: nat, total: array<Insn>, c: nat, f: nat, cacheSize: nat, ghost before: set<nat>)
    returns (ok: bool, newId: nat, newTotal: array<Insn>, newF: nat, newSize: nat)
    requires f <= c && total.Length == c - f + cacheSize && f <= cacheSize && Share(cacheSize, total.Length)
    requires c < MAX_ENTRIES && Holds(mem, before, id, total[..c]) && (!o.detail ==> Owned(total[..c]) == {})
    modifies mem
    ensures mem.Valid()
    ensures !ok ==> mem.live == before
    ensures ok ==>
      && newF <= c && newTotal.Length == c - newF + newSize && newF < newSize && Share(newSize, newTotal.Length)
      && (newTotal == total || fresh(newTotal)) && newTotal[..c] == total[..c]
      && Holds(mem, before, newId, total[..c])
  {
    hide Unshared, Owned, Share, Grow;
    ok, newId, newTotal, newF, newSize := true, id, total, f, cacheSize;
    if f == cacheSize {
      GrowExact(cacheSize, total.Length);
      newSize := Grow(cacheSize);
      newId, newTotal := Resize(mem, id, total, c, total.Length + newSize);
      if newId == 0 {
        GiveUp(o, mem, id, total, c, before);
        return false, newId, newTotal, newF, newSize;
      }
      newF := 0;
    }
  }

  /** The end of cs_disasm: gives back the unused part of the last cache, or everything if nothing was decoded. */
  method Trim(o: Options, mem: Memory, id: nat, total: array<Insn>, c: nat, f: nat, cacheSize: nat, ghost before: set<nat>)
    returns (n: nat, out: Output, memoryFailed: bool)
    requires f <= c && total.Length == c - f + cacheSize && f <= cacheSize
    requires Holds(mem, before, id, total[..c]) && (!o.detail ==> Owned(total[..c]) == {})
    modifies mem
    ensures mem.Valid()
    ensures n == 0 ==> !out.Buffer? && mem.live == before && (memoryFailed || (c == 0 && out == NullBuffer))
    ensures n != 0 ==>
      && n == c && !memoryFailed && out.Buffer? && (out.insns == total || fresh(out.insns)) && out.insns[..] == total[..c]
      && Holds(mem, before, out.id, total[..c])
    ensures memoryFailed ==> n == 0
  {
    if c == 0 {
      mem.Free(id);
      return 0, NullBuffer, false;
    }
    if f == cacheSize { return c, Buffer(id, total), false; }
    var newId, newTotal := Resize(mem, id, total, c, total.Length - (cacheSize - f));
    if newId == 0 {
      GiveUp(o, mem, id, total, c, before);
      return 0, NullBuffer, true;
    }
    return c, Buffer(newId, newTotal), false;
  }

  /** The listing is short enough for the 32-bit growth arithmetic. */
  predicate Countable(code: seq<Byte>, count: nat) {
    |code| < MAX_ENTRIES || 0 < count <= MAX_ENTRIES
  }

  /** cs_disasm. */
  method Disasm(o: Options, mem: Memory, code: seq<Byte>, address: nat, count: nat) returns (n: nat, out: Output, memoryFailed: bool)
    requires Usable(o) && mem.Valid() && address < ADDRESS_MODULUS && Countable(code, count)
    modifies mem
    ensures mem.Valid()
    ensures n == 0 ==> !out.Buffer? && mem.live == old(mem.live)
    ensures n != 0 ==>
      && out.Buffer? && fresh(out.insns) && out.insns.Length == n && !memoryFailed
      && Holds(mem, old(mem.live), out.id, out.insns[..])
      && Shows(out.insns[..], Listing(o, code, address, count))
      && (!o.detail ==> forall i :: 0 <= i < n ==> out.insns[i].detail == 0)
    ensures memoryFailed ==> n == 0
    ensures !memoryFailed ==> n == |Listing(o, code, address, count)| && (n == 0 ==> out == NullBuffer)
    ensures !memoryFailed ==> Disassembled(o, code, address, count, if n == 0 then [] else out.insns[..])
  {
    hide Listing, Next, Usable, Advance, Unshared, Owned, Shows, Plain, Taken, Decodes, Stuck, Disassembled;
    ghost var items, before := Listing(o, code, address, count), mem.live;
    var cacheSize: nat, f: nat, c: nat := INSN_CACHE_SIZE, 0, 0;
    var id := mem.Malloc();
    if id == 0 { return 0, Untouched, true; }
    var total := new Insn[cacheSize](_ => Insn(0, 0, 0, [], 0));
    HoldsNothing(items);
    AdvanceNone(address);
    assert total[..0] == [] && items[..0] == [];
    assert Holds(mem, before, id, total[..0]);
    hide Accounts, Share;
    var pos, offset := 0, address;
    var more := true;
    while more && pos < |code|
      invariant f <= c && total.Length == c - f + cacheSize && f <= cacheSize && Share(cacheSize, total.Length)
      invariant c <= |items| && fresh(total) && Holds(mem, before, id, total[..c]) && Shows(total[..c], items)
      invariant !o.detail ==> Owned(total[..c]) == {}
      invariant more ==> f < cacheSize && c <= pos == Taken(items[..c]) && offset == Advance(address, pos) && Unfinished(count, c)
      invariant !more ==> c == |items|
      invariant pos <= |code|
      decreases more, |code| - pos
    {
      ListingHead(o, code, address, count, c);
      ghost var live, shown := mem.live, total[..c];
      var nextOffset := FillSlot(o, mem, total, c, code[pos..], offset);
      if nextOffset == 0 {
        more := false;
      } else {
        assert total[..c + 1] == shown + [total[c]];
        HoldsAppend(mem, before, live, id, shown, total[c]);
        OwnedAppend(shown, total[c]);
        ShowsAppend(shown, total[c], items);
        f, c := f + 1, c + 1;
        if c == count {
          more := false;
        } else {
          var ok;
          ok, id, total, f, cacheSize := Reserve(o, mem, id, total, c, f, cacheSize, before);
          if !ok { return 0, NullBuffer, true; }
          AdvanceTwice(address, pos, nextOffset);
          pos, offset := pos + nextOffset, Advance(offset, nextOffset);
        }
      }
    }
    if more { ListingEnd(o, code, address, count, c); }
    n, out, memoryFailed := Trim(o, mem, id, total, c, f, cacheSize, before);
    if n != 0 && !o.detail { NoDetails(out.insns[..]); }
    if !memoryFailed { ListingDisassembles(o, code, address, count, if n == 0 then [] else out.insns[..]); }
  }

  lemma NoDetails(insns: seq<Insn>)
    requires Owned(insns) == {}
    ensures forall i :: 0 <= i < |insns| ==> insns[i].detail == 0
  {
    assert forall i :: 0 <= i < |insns| ==> insns[i].detail == 0 || insns[i].detail in Owned(insns);
  }

  /** cs_free on what cs_disasm returned. */
  method FreeListing(mem: Memory, out: Output, n: nat, ghost before: set<nat>)
    requires out.Buffer? && n == out.insns.Length && Holds(mem, before, out.id, out.insns[..])
    modifies mem
    ensures mem.Valid() && mem.live == before
  {
    assert out.insns[..n] == out.insns[..];
    FreeDetails(mem, out.insns, n);
    mem.Free(out.id);
  }

  /** Whatever fails on the way, disassembling and freeing leaves no block behind and frees none twice. */
  method DisasmAndFree(o: Options, mem: Memory, code: seq<Byte>, address: nat, count: nat)
    requires Usable(o) && mem.Valid() && address < ADDRESS_MODULUS && Countable(code, count)
    modifies mem
    ensures mem.Valid() && mem.live == old(mem.live)
  {
    var n, out, _ := Disasm(o, mem, code, address, count);
    if n != 0 { FreeListing(mem, out, n, old(mem.live)); }
  }

  /** The step on a fresh slot, as the next entry of the listing. */
  method StepIter(o: Options, code: seq<Byte>, address: nat) returns (ok: bool, newCode: seq<Byte>, newAddress: nat, insn: Insn)
    requires Usable(o)
    ensures ok == Next(o, code, address).Item?
    ensures ok ==> var item := Next(o, code, address);
      Plain(insn) == item.insn && newCode == code[item.advance..] && newAddress == Advance(address, item.advance)
    ensures !ok ==> newCode == code
  {
    ok, newCode, newAddress, insn := DisasmIter(o, code, address, Insn(0, 0, 0, [], 0));
  }

  /** Stepping with cs_disasm_iter, at most `count` times unless `count` is 0, lists the same
      instructions as one call of cs_disasm. */
  method IterateAll(o: Options, code: seq<Byte>, address: nat, count: nat) returns (insns: seq<Insn>)
    requires Usable(o) && address < ADDRESS_MODULUS
    ensures |insns| == |Listing(o, code, address, count)| && Shows(insns, Listing(o, code, address, count))
    ensures Disassembled(o, code, address, count, insns)
  {
    hide Listing, Next, Usable, Advance, Shows, Taken, Decodes, Stuck, Disassembled;
    ghost var items := Listing(o, code, address, count);
    HoldsNothing(items);
    AdvanceNone(address);
    insns := [];
    assert items[..0] == [] && code[0..] == code;
    var rest, at := code, address;
    ghost var pos := 0;
    while Unfinished(count, |insns|)
      invariant |insns| <= |items| && Shows(insns, items)
      invariant pos == Taken(items[..|insns|]) <= |code| && rest == code[pos..] && at == Advance(address, pos)
      invariant !Unfinished(count, |insns|) ==> |insns| == |items|
      decreases |rest|
    {
      ListingHead(o, code, address, count, |insns|);
      var ok, insn;
      ok, rest, at, insn := StepIter(o, rest, at);
      if !ok { break; }
      ghost var advance := items[|insns|].advance;
      AdvanceTwice(address, pos, advance);
      assert code[pos..][advance..] == code[pos + advance..];
      ShowsAppend(insns, insn, items);
      pos := pos + advance;
      insns := insns + [insn];
    }
    ListingDisassembles(o, code, address, count, insns);
  }
}
