/** The rules that hde64.c reads from its table, stated without the table. */
module Hde64Map {
  import opened Hde64Table
  import opened Hde64

  // ----- masks over the register field

  /** The fields that a mask of the table stands for: bit 7 for the first, bit 0 for the last. */
  function Fields(mask: Byte): (r: set<nat>) {
    if mask == 0x00 then {}
    else if mask == 0x01 then {7}
    else if mask == 0x03 then {6, 7}
    else if mask == 0x04 then {5}
    else if mask == 0x07 then {5, 6, 7}
    else if mask == 0x0a then {4, 6}
    else if mask == 0x0e then {4, 5, 6}
    else if mask == 0x33 then {2, 3, 6, 7}
    else if mask == 0x3f then {2, 3, 4, 5, 6, 7}
    else if mask == 0x40 then {1}
    else if mask == 0x7f then {1, 2, 3, 4, 5, 6, 7}
    else if mask == 0xbc then {0, 2, 3, 4, 5}
    else if mask == 0xbf then {0, 2, 3, 4, 5, 6, 7}
    else if mask == 0xcc then {0, 1, 4, 5}
    else if mask == 0xcf then {0, 1, 4, 5, 6, 7}
    else if mask == 0xd5 then {0, 1, 3, 5, 7}
    else if mask == 0xeb then {0, 1, 2, 4, 6, 7}
    else if mask == 0xf0 then {0, 1, 2, 3}
    else if mask == 0xf8 then {0, 1, 2, 3, 4}
    else if mask == 0xff then {0, 1, 2, 3, 4, 5, 6, 7}
    else {}
  }

  lemma Powers()
    ensures Pow2(0) == 1 && Pow2(1) == 2 && Pow2(2) == 4 && Pow2(3) == 8
    ensures Pow2(4) == 16 && Pow2(5) == 32 && Pow2(6) == 64 && Pow2(7) == 128
  {
    assert Pow2(2) == 4 && Pow2(4) == 16 && Pow2(6) == 64;
  }

  predicate Below8(k: int) {
    k == 0 || k == 1 || k == 2 || k == 3 || k == 4 || k == 5 || k == 6 || k == 7
  }

  predicate InMasks(mask: Byte) {
    || mask == 0x00 || mask == 0x01 || mask == 0x03 || mask == 0x04 || mask == 0x07
    || mask == 0x0a || mask == 0x0e || mask == 0x33 || mask == 0x3f || mask == 0x40
    || mask == 0x7f || mask == 0xbc || mask == 0xbf || mask == 0xcc || mask == 0xcf
    || mask == 0xd5 || mask == 0xeb || mask == 0xf0 || mask == 0xf8 || mask == 0xff
  }

  lemma MaskFields(mask: Byte, reg: nat)
    requires InMasks(mask) && reg < 8
    ensures ShiftsToTop(mask, reg) <==> reg in Fields(mask)
  {
    Powers();
    hide Pow2;
    assert Below8(reg);
  }

  // ----- groups

  /** A form of a group that does not exist. */
  predicate MissingForm(twoByte: bool, op: Byte, reg: nat) {
    if twoByte then
      || (op == 0x00 && 6 <= reg) || (op == 0x01 && reg == 5) || (op in {0x71, 0x72} && reg in {0, 1, 3, 5, 7})
      || (op == 0x73 && reg in {0, 1, 4, 5}) || (op == 0xba && reg < 4) || (op == 0xc7 && reg !in {1, 6, 7})
    else
      (op in {0x8f, 0xc6, 0xc7} && 1 <= reg) || (op == 0xfe && 2 <= reg) || (op == 0xff && reg == 7)
  }

  lemma GroupForms(twoByte: bool, op: Byte, reg: nat)
    requires reg < 8
    ensures ShiftsToTop(GroupMask(if twoByte then DELTA_OPCODES else 0, op), reg) <==> MissingForm(twoByte, op, reg)
  {
    hide ShiftsToTop, GroupMask, Cflags, Entry, OneByteMap, TwoByteMap, OneByteError, TwoByteError;
    if twoByte { TwoByteTable(op); } else { OneByteTable(op); }
    MaskFields(if twoByte then TwoByteMissing(op) else OneByteMissing(op), reg);
    assert Below8(reg);
  }

  // ----- LOCK

  /** Entry `k` of the LOCK table for one-byte opcodes, as opcode and mask. */
  function LockEntry(k: nat): (r: (Byte, Byte)) {
    if k == 0 then (0x00, 0x00) else if k == 1 then (0x08, 0x00) else if k == 2 then (0x10, 0x00) else if k == 3 then (0x18, 0x00)
    else if k == 4 then (0x20, 0x00) else if k == 5 then (0x28, 0x00) else if k == 6 then (0x30, 0x00) else if k == 7 then (0x80, 0x01)
    else if k == 8 then (0x82, 0x01) else if k == 9 then (0x86, 0x00) else if k == 10 then (0xf6, 0xcf) else (0xfe, 0x3f)
  }

  function LockEntry2(k: nat): (r: (Byte, Byte)) {
    if k == 0 then (0xab, 0x00) else if k == 1 then (0xb0, 0x00) else if k == 2 then (0xb1, 0x00) else if k == 3 then (0xb3, 0x00)
    else if k == 4 then (0xba, 0xf8) else if k == 5 then (0xbb, 0x00) else if k == 6 then (0xc0, 0x00) else if k == 7 then (0xc1, 0x00)
    else (0xc7, 0xbf)
  }

  lemma LockCells(k: nat)
    requires k < 12
    ensures PairKey(DELTA_OP_LOCK_OK, k) == LockEntry(k).0 && Table(DELTA_OP_LOCK_OK + 2 * k + 1) == LockEntry(k).1
    ensures InMasks(LockEntry(k).1)
  {
    assert Below8(k) || k == 8 || k == 9 || k == 10 || k == 11;
  }

  lemma LockCells2(k: nat)
    requires k < 9
    ensures PairKey(DELTA_OP2_LOCK_OK, k) == LockEntry2(k).0 && Table(DELTA_OP2_LOCK_OK + 2 * k + 1) == LockEntry2(k).1
    ensures InMasks(LockEntry2(k).1)
  {
    assert Below8(k) || k == 8;
  }

  /** The forms that may carry a LOCK prefix: arithmetic on memory, exchanges, and the bit and compare instructions. */
  predicate LockForm(twoByte: bool, op: Byte, reg: nat) {
    if twoByte then
      op in {0xab, 0xb0, 0xb1, 0xb3, 0xbb, 0xc0, 0xc1} || (op == 0xba && 5 <= reg) || (op == 0xc7 && reg == 1)
    else
      || (op < 0x38 && op % 8 < 2) || (op in {0x80, 0x81, 0x82, 0x83} && reg != 7) || op in {0x86, 0x87}
      || (op in {0xf6, 0xf7} && reg in {2, 3}) || (op in {0xfe, 0xff} && reg < 2)
  }

  lemma LockAt(op: Byte, reg: nat, k: nat)
    requires reg < 8 && k < 12
    ensures PairAllows(DELTA_OP_LOCK_OK, op, reg, k) <==> LockEntry(k).0 == op && reg !in Fields(LockEntry(k).1)
  {
    hide Table, ShiftsToTop, Fields, PairKey, LockEntry, LockIndex, InMasks;
    LockCells(k);
    MaskFields(LockEntry(k).1, reg);
    forall j | 0 <= j < k
      ensures PairKey(DELTA_OP_LOCK_OK, j) != LockEntry(k).0
    {
      LockCells(j);
      LockIndexed(LockEntry(k).0, j);
      LockIndexed(LockEntry(k).0, k);
    }
  }

  lemma LockAt2(op: Byte, reg: nat, k: nat)
    requires reg < 8 && k < 9
    ensures PairAllows(DELTA_OP2_LOCK_OK, op, reg, k) <==> LockEntry2(k).0 == op && reg !in Fields(LockEntry2(k).1)
  {
    hide Table, ShiftsToTop, Fields, PairKey, LockEntry2, LockIndex2, InMasks;
    LockCells2(k);
    MaskFields(LockEntry2(k).1, reg);
    forall j | 0 <= j < k
      ensures PairKey(DELTA_OP2_LOCK_OK, j) != LockEntry2(k).0
    {
      LockCells2(j);
      LockIndexed2(LockEntry2(k).0, j);
      LockIndexed2(LockEntry2(k).0, k);
    }
  }

  /** The place of an opcode in the LOCK table, 12 if it has none. */
  function LockIndex(op: Byte): (k: nat) {
    if op in {0x00, 0x08, 0x10, 0x18, 0x20, 0x28, 0x30} then op / 8
    else if op == 0x80 then 7 else if op == 0x82 then 8 else if op == 0x86 then 9
    else if op == 0xf6 then 10 else if op == 0xfe then 11 else 12
  }

  function LockIndex2(op: Byte): (k: nat) {
    if op == 0xab then 0 else if op == 0xb0 then 1 else if op == 0xb1 then 2 else if op == 0xb3 then 3 else if op == 0xba then 4
    else if op == 0xbb then 5 else if op == 0xc0 then 6 else if op == 0xc1 then 7 else if op == 0xc7 then 8 else 9
  }

  lemma LockIndexed(op: Byte, k: nat)
    requires k < 12
    ensures LockEntry(k).0 == op <==> LockIndex(op) == k
  {
  }

  lemma LockIndexed2(op: Byte, k: nat)
    requires k < 9
    ensures LockEntry2(k).0 == op <==> LockIndex2(op) == k
  {
  }

  lemma LockOneByte(op: Byte, reg: nat)
    requires reg < 8
    ensures (exists k: nat :: k < 12 && PairAllows(DELTA_OP_LOCK_OK, Even(op), reg, k)) <==> LockForm(false, op, reg)
  {
    hide PairAllows, Fields, Table;
    var i := LockIndex(Even(op));
    forall k: nat | k < 12
      ensures PairAllows(DELTA_OP_LOCK_OK, Even(op), reg, k) <==> k == i && reg !in Fields(LockEntry(k).1)
    {
      LockAt(Even(op), reg, k);
      LockIndexed(Even(op), k);
    }
    LockOneByteForm(op, reg);
  }

  lemma LockOneByteForm(op: Byte, reg: nat)
    requires reg < 8
    ensures var i := LockIndex(Even(op)); (i < 12 && reg !in Fields(LockEntry(i).1)) <==> LockForm(false, op, reg)
  {
    hide Even, LockIndex;
    if op < 0x38 { LockArithmetic(op); } else { LockOthers(op); }
    assert Below8(reg);
  }

  lemma LockOthers(op: Byte)
    requires 0x38 <= op
    ensures LockIndex(Even(op)) ==
      if op in {0x80, 0x81} then 7 else if op in {0x82, 0x83} then 8 else if op in {0x86, 0x87} then 9
      else if op in {0xf6, 0xf7} then 10 else if op in {0xfe, 0xff} then 11 else 12
  {
  }

  lemma LockArithmetic(op: Byte)
    requires op < 0x38
    ensures if op % 8 < 2 then LockIndex(Even(op)) < 7 else LockIndex(Even(op)) == 12
  {
    assert Even(op) / 8 == op / 8 && Even(op) % 8 == op % 8 - op % 2;
    assert Below8(op / 8);
  }

  lemma LockTwoByte(op: Byte, reg: nat)
    requires reg < 8
    ensures (exists k: nat :: k < 9 && PairAllows(DELTA_OP2_LOCK_OK, op, reg, k)) <==> LockForm(true, op, reg)
  {
    hide PairAllows, Fields, Table;
    var i := LockIndex2(op);
    forall k: nat | k < 9
      ensures PairAllows(DELTA_OP2_LOCK_OK, op, reg, k) <==> k == i && reg !in Fields(LockEntry2(k).1)
    {
      LockAt2(op, reg, k);
      LockIndexed2(op, k);
    }
    LockTwoByteForm(op, reg);
  }

  lemma LockTwoByteForm(op: Byte, reg: nat)
    requires reg < 8
    ensures var i := LockIndex2(op); (i < 9 && reg !in Fields(LockEntry2(i).1)) <==> LockForm(true, op, reg)
  {
    assert Below8(reg);
  }

  /** A LOCK prefix is an error exactly on a register operand and on a form that does not take it. */
  lemma LockForms(twoByte: bool, op: Byte, mod: nat, reg: nat)
    requires reg < 8
    ensures LockBad(twoByte, op, mod, reg) <==> mod == 3 || !LockForm(twoByte, op, reg)
  {
    hide LockForm, PairAllows;
    if twoByte { LockTwoByte(op, reg); } else { LockOneByte(op, reg); }
  }

  // ----- memory operands only

  predicate AnyPref(pref: Pref) {
    pref.none || pref.f2 || pref.f3 || pref.p66 || pref.p67 || pref.lock || pref.seg
  }

  /** The register forms that do not exist, under the given prefixes. */
  predicate MemoryOnly(twoByte: bool, op: Byte, pref: Pref, reg: nat) {
    if twoByte then
      || (op == 0x01 && reg !in {4, 5, 6} && AnyPref(pref))
      || (op in {0x12, 0x16, 0xe7} && pref.p66) || (op in {0x13, 0x17, 0x2b} && (pref.none || pref.p66))
      || (op == 0xae && reg < 5 && AnyPref(pref)) || (op in {0xb2, 0xb4, 0xb5} && AnyPref(pref))
      || (op == 0xc3 && pref.none) || (op == 0xc7 && reg == 1 && AnyPref(pref)) || (op == 0xf0 && pref.f2)
    else
      (op in {0x62, 0x8d, 0xc4, 0xc5} || (op == 0xff && reg in {3, 5})) && AnyPref(pref)
  }

  /** Which prefixes a mask of PRE_ bits stands for. */
  predicate Listed(mask: Byte, pref: Pref) {
    if mask == 0x01 then pref.none else if mask == 0x02 then pref.f2 else if mask == 0x04 then pref.f3
    else if mask == 0x05 then pref.none || pref.f3 else if mask == 0x06 then pref.f2 || pref.f3
    else if mask == 0x07 then pref.none || pref.f2 || pref.f3 else if mask == 0x08 then pref.p66
    else if mask == 0x09 then pref.none || pref.p66 else if mask == 0x0a then pref.f2 || pref.p66
    else if mask == 0x0d then pref.none || pref.f3 || pref.p66 else if mask == 0x0e then pref.f2 || pref.f3 || pref.p66
    else mask == 0xff && AnyPref(pref)
  }

  lemma MaskMeets(mask: Byte, pref: Pref)
    requires mask <= 0x02 || 0x04 <= mask <= 0x0a || mask == 0x0d || mask == 0x0e || mask == 0xff
    requires mask != 0x03
    ensures Meets(mask, pref) <==> Listed(mask, pref)
  {
    Powers();
    hide Pow2;
    assert || mask == 0x00 || mask == 0x01 || mask == 0x02 || mask == 0x04 || mask == 0x05 || mask == 0x06 || mask == 0x07
           || mask == 0x08 || mask == 0x09 || mask == 0x0a || mask == 0x0d || mask == 0x0e || mask == 0xff;
  }

  /** Entry `k` of the memory-only table for one-byte opcodes: opcode, prefixes and mask. */
  function MemoryEntry(k: nat): (r: (Byte, Byte, Byte)) {
    if k == 0 then (0x62, 0xff, 0x00) else if k == 1 then (0x8d, 0xff, 0x00) else if k == 2 then (0xc4, 0xff, 0x00) else if k == 3 then (0xc5, 0xff, 0x00)
    else (0xff, 0xff, 0xeb)
  }

  function MemoryEntry2(k: nat): (r: (Byte, Byte, Byte)) {
    if k == 0 then (0x01, 0xff, 0x0e) else if k == 1 then (0x12, 0x08, 0x00) else if k == 2 then (0x13, 0x09, 0x00) else if k == 3 then (0x16, 0x08, 0x00)
    else if k == 4 then (0x17, 0x09, 0x00) else if k == 5 then (0x2b, 0x09, 0x00) else if k == 6 then (0xae, 0xff, 0x07) else if k == 7 then (0xb2, 0xff, 0x00)
    else if k == 8 then (0xb4, 0xff, 0x00) else if k == 9 then (0xb5, 0xff, 0x00) else if k == 10 then (0xc3, 0x01, 0x00) else if k == 11 then (0xc7, 0xff, 0xbf)
    else if k == 12 then (0xe7, 0x08, 0x00) else (0xf0, 0x02, 0x00)
  }

  lemma MemoryCells(k: nat)
    requires k < 5
    ensures TripleKey(DELTA_OP_ONLY_MEM, k) == MemoryEntry(k).0
    ensures Table(DELTA_OP_ONLY_MEM + 3 * k + 1) == MemoryEntry(k).1 && Table(DELTA_OP_ONLY_MEM + 3 * k + 2) == MemoryEntry(k).2
    ensures InMasks(MemoryEntry(k).2) && MemoryEntry(k).1 in {0x01, 0x02, 0x08, 0x09, 0xff}
  {
    assert Below8(k);
  }

  lemma MemoryAt(op: Byte, pref: Pref, reg: nat, k: nat)
    requires reg < 8 && k < 5
    ensures TripleForbids(DELTA_OP_ONLY_MEM, op, pref, reg, k) <==>
      MemoryEntry(k).0 == op && Listed(MemoryEntry(k).1, pref) && reg !in Fields(MemoryEntry(k).2)
  {
    hide Table, ShiftsToTop, Fields, TripleKey, Meets, Listed, MemoryEntry, MemoryIndex, InMasks;
    MemoryCells(k);
    MaskFields(MemoryEntry(k).2, reg);
    MaskMeets(MemoryEntry(k).1, pref);
    forall j | 0 <= j < k
      ensures TripleKey(DELTA_OP_ONLY_MEM, j) != MemoryEntry(k).0
    {
      MemoryCells(j);
      MemoryIndexed(MemoryEntry(k).0, j);
      MemoryIndexed(MemoryEntry(k).0, k);
    }
  }

  /** The place of an opcode in that table, 5 if it has none. */
  function MemoryIndex(op: Byte): (k: nat) {
    if op == 0x62 then 0 else if op == 0x8d then 1 else if op == 0xc4 then 2 else if op == 0xc5 then 3 else if op == 0xff then 4 else 5
  }

  lemma MemoryIndexed(op: Byte, k: nat)
    requires k < 5
    ensures MemoryEntry(k).0 == op <==> MemoryIndex(op) == k
  {
  }

  lemma MemoryForm(op: Byte, pref: Pref, reg: nat)
    requires reg < 8
    ensures var i := MemoryIndex(op);
      (i < 5 && Listed(MemoryEntry(i).1, pref) && reg !in Fields(MemoryEntry(i).2)) <==> MemoryOnly(false, op, pref, reg)
  {
    assert Below8(reg);
  }

  lemma MemoryForms(op: Byte, pref: Pref, reg: nat)
    requires reg < 8
    ensures (exists k: nat :: k < 5 && TripleForbids(DELTA_OP_ONLY_MEM, op, pref, reg, k)) <==> MemoryOnly(false, op, pref, reg)
  {
    hide TripleForbids, Fields, Table, Listed;
    var i := MemoryIndex(op);
    forall k: nat | k < 5
      ensures TripleForbids(DELTA_OP_ONLY_MEM, op, pref, reg, k) <==>
        k == i && Listed(MemoryEntry(k).1, pref) && reg !in Fields(MemoryEntry(k).2)
    {
      MemoryAt(op, pref, reg, k);
      MemoryIndexed(op, k);
    }
    MemoryForm(op, pref, reg);
  }

  lemma MemoryCells2(k: nat)
    requires k < 14
    ensures TripleKey(DELTA_OP2_ONLY_MEM, k) == MemoryEntry2(k).0
    ensures Table(DELTA_OP2_ONLY_MEM + 3 * k + 1) == MemoryEntry2(k).1 && Table(DELTA_OP2_ONLY_MEM + 3 * k + 2) == MemoryEntry2(k).2
    ensures InMasks(MemoryEntry2(k).2) && MemoryEntry2(k).1 in {0x01, 0x02, 0x08, 0x09, 0xff}
  {
    assert Below8(k) || Below8(k - 8);
  }

  lemma MemoryAt2(op: Byte, pref: Pref, reg: nat, k: nat)
    requires reg < 8 && k < 14
    ensures TripleForbids(DELTA_OP2_ONLY_MEM, op, pref, reg, k) <==>
      MemoryEntry2(k).0 == op && Listed(MemoryEntry2(k).1, pref) && reg !in Fields(MemoryEntry2(k).2)
  {
    hide Table, ShiftsToTop, Fields, TripleKey, Meets, Listed, MemoryEntry2, MemoryIndex2, InMasks;
    MemoryCells2(k);
    MaskFields(MemoryEntry2(k).2, reg);
    MaskMeets(MemoryEntry2(k).1, pref);
    forall j | 0 <= j < k
      ensures TripleKey(DELTA_OP2_ONLY_MEM, j) != MemoryEntry2(k).0
    {
      MemoryCells2(j);
      MemoryIndexed2(MemoryEntry2(k).0, j);
      MemoryIndexed2(MemoryEntry2(k).0, k);
    }
  }

  /** The place of an opcode in that table, 14 if it has none. */
  function MemoryIndex2(op: Byte): (k: nat) {
    if op == 0x01 then 0 else if op == 0x12 then 1 else if op == 0x13 then 2 else if op == 0x16 then 3 else if op == 0x17 then 4
    else if op == 0x2b then 5 else if op == 0xae then 6 else if op == 0xb2 then 7 else if op == 0xb4 then 8 else if op == 0xb5 then 9
    else if op == 0xc3 then 10 else if op == 0xc7 then 11 else if op == 0xe7 then 12 else if op == 0xf0 then 13 else 14
  }

  lemma MemoryIndexed2(op: Byte, k: nat)
    requires k < 14
    ensures MemoryEntry2(k).0 == op <==> MemoryIndex2(op) == k
  {
  }

  lemma MemoryForm2(op: Byte, pref: Pref, reg: nat)
    requires reg < 8
    ensures var i := MemoryIndex2(op);
      (i < 14 && Listed(MemoryEntry2(i).1, pref) && reg !in Fields(MemoryEntry2(i).2)) <==> MemoryOnly(true, op, pref, reg)
  {
    assert Below8(reg);
  }

  lemma MemoryForms2(op: Byte, pref: Pref, reg: nat)
    requires reg < 8
    ensures (exists k: nat :: k < 14 && TripleForbids(DELTA_OP2_ONLY_MEM, op, pref, reg, k)) <==> MemoryOnly(true, op, pref, reg)
  {
    hide TripleForbids, Fields, Table, Listed;
    var i := MemoryIndex2(op);
    forall k: nat | k < 14
      ensures TripleForbids(DELTA_OP2_ONLY_MEM, op, pref, reg, k) <==>
        k == i && Listed(MemoryEntry2(k).1, pref) && reg !in Fields(MemoryEntry2(k).2)
    {
      MemoryAt2(op, pref, reg, k);
      MemoryIndexed2(op, k);
    }
    MemoryForm2(op, pref, reg);
  }

  // ----- floating point

  /** The forms of 0xd9 to 0xdf that do not exist. */
  predicate FpuMissing(op: Byte, mod: nat, reg: nat, rm: nat) {
    if mod != 3 then
      (op == 0xd9 && reg == 1) || (op == 0xdb && (reg == 4 || reg == 6)) || (op == 0xdd && reg == 5)
    else
      || (op == 0xd9 && (|| (reg == 2 && rm != 0) || (reg == 4 && rm in {2, 3, 6, 7}) || (reg == 5 && rm == 7)))
      || (op == 0xda && (reg in {4, 6, 7} || (reg == 5 && rm != 1)))
      || (op == 0xdb && ((reg == 4 && 5 <= rm) || reg == 7))
      || (op == 0xdd && 6 <= reg) || (op == 0xde && reg == 3 && rm != 1)
      || (op == 0xdf && ((reg == 4 && rm != 0) || reg == 7))
  }

  /** The masks of the two floating-point tables. */
  function FpuMemoryMask(op: Byte): (mask: Byte) {
    if op == 0xd9 then 0x40 else if op == 0xdb then 0x0a else if op == 0xdd then 0x04 else 0x00
  }

  function FpuMask(op: Byte, reg: nat): (mask: Byte) {
    if op == 0xd9 then (if reg == 2 then 0x7f else if reg == 4 then 0x33 else if reg == 5 then 0x01 else 0x00)
    else if op == 0xda then (if reg < 4 then 0x00 else if reg == 5 then 0xbf else 0xff)
    else if op == 0xdb then (if reg == 4 then 0x07 else if reg == 7 then 0xff else 0x00)
    else if op == 0xdd then (if 6 <= reg then 0xff else 0x00)
    else if op == 0xde then (if reg == 3 then 0xbf else 0x00)
    else if op == 0xdf then (if reg == 4 then 0x7f else if reg == 7 then 0xff else 0x00)
    else 0x00
  }

  lemma FpuMemoryCells(op: Byte)
    requires 0xd9 <= op <= 0xdf
    ensures Table(DELTA_FPU_REG + (op - 0xd9)) == FpuMemoryMask(op) && InMasks(FpuMemoryMask(op))
  {
    assert Below8(op - 0xd9);
  }

  lemma FpuCells(op: Byte, reg: nat)
    requires 0xd9 <= op <= 0xdf && reg < 8
    ensures Table(DELTA_FPU_MODRM + 8 * (op - 0xd9) + reg) == FpuMask(op, reg) && InMasks(FpuMask(op, reg))
  {
    assert Below8(op - 0xd9) && Below8(reg);
  }

  lemma FpuForms(op: Byte, mod: nat, reg: nat, rm: nat)
    requires 0xd9 <= op <= 0xdf && reg < 8 && rm < 8
    ensures FpuForbids(op, mod, reg, rm) <==> FpuMissing(op, mod, reg, rm)
  {
    hide Table, ShiftsToTop;
    if mod == 3 {
      FpuCells(op, reg);
      MaskFields(FpuMask(op, reg), rm);
    } else {
      FpuMemoryCells(op);
      MaskFields(FpuMemoryMask(op), reg);
    }
    assert Below8(reg) && Below8(rm);
  }

  // ----- the whole instruction

  /** What the opcode is followed by; TEST, the first two forms of 0xf6 and 0xf7, has an immediate as well. */
  function MapCflags(hs: Record): (cflags: Byte) {
    var op := OpOf(hs);
    if op == 0xf6 && hs.reg <= 1 then 0x03
    else if op == 0xf7 && hs.reg <= 1 then 0x11
    else if hs.opcode == 0x0f then TwoByteMap(op)
    else OneByteMap(op)
  }

  /** Opcodes, and prefixes of two-byte opcodes, that are errors whatever follows. */
  predicate BadOpcode(hs: Record, pref: Pref) {
    || (if hs.opcode == 0x0f then TwoByteError(OpOf(hs)) else OneByteError(OpOf(hs)))
    || (hs.opcode2 != 0 && Listed(TwoByteForbidden(OpOf(hs)), pref))
  }

  /** Forms of a ModRM byte that do not exist. */
  predicate BadForm(hs: Record) {
    var op, mod, reg, rm := OpOf(hs), hs.modrm / 64, hs.modrm % 64 / 8, hs.modrm % 8;
    || MissingForm(hs.opcode == 0x0f, op, reg)
    || (hs.opcode2 == 0 && 0xd9 <= op <= 0xdf && FpuMissing(op, mod, reg, rm))
  }

  /** Operands that do not exist: control, debug and segment registers, memory forms of register moves, and register
      forms of what takes memory only. */
  predicate BadOperand(hs: Record, pref: Pref) {
    var op, mod, reg := OpOf(hs), hs.modrm / 64, hs.modrm % 64 / 8;
    if hs.opcode2 != 0 && (op == 0x20 || op == 0x22) then reg !in {0, 2, 3, 4}
    else if hs.opcode2 != 0 && (op == 0x21 || op == 0x23) then reg in {4, 5}
    else if hs.opcode2 == 0 && (op == 0x8c || op == 0x8e) then reg in {6, 7} || (op == 0x8e && reg == 1)
    else if mod == 3 then MemoryOnly(hs.opcode2 != 0, op, pref, reg)
    else hs.opcode2 != 0 && (|| (op in {0x50, 0xd7, 0xf7} && (pref.none || pref.p66))
                             || (op == 0xd6 && (pref.f2 || pref.f3))
                             || op == 0xc5)
  }

  predicate BadLock(hs: Record) {
    hs.modrm / 64 == 3 || !LockForm(hs.opcode2 != 0, OpOf(hs), hs.modrm % 64 / 8)
  }

  /** Moves to and from control and debug registers have no memory form. */
  function MapMod(hs: Record): (mod: nat) {
    if hs.opcode == 0x0f && hs.opcode2 in {0x20, 0x21, 0x22, 0x23} then 3 else hs.mod
  }

  function FormErrors(hs: Record, pref: Pref): (r: set<Flag>) {
    (if BadForm(hs) then {Error, ErrorOpcode} else {}) + (if pref.lock && BadLock(hs) then {Error, ErrorLock} else {})
    + (if BadOperand(hs, pref) then {Error, ErrorOperand} else {})
  }

  /** The flags of an instruction, from the maps. */
  function MapFlags(hs: Record, pref: Pref): (r: set<Flag>) {
    var q := if 0xa0 <= hs.opcode <= 0xa3 then pref.(p66 := pref.p67) else pref;
    (if BadOpcode(hs, q) then {Error, ErrorOpcode} else {})
    + (if MapCflags(hs) % 2 == 1 then
         {Modrm} + FormErrors(hs, q) + MemoryFlags(MapMod(hs), hs.rm, q.p67, hs.sib)
       else if q.lock then {Error, ErrorLock} else {})
    + ImmFlags(MapCflags(hs), q.p66, Wide(hs))
  }

  lemma CflagsByMap(hs: Record)
    ensures Cflags(BaseOf(hs), OpOf(hs)) % 2 == MapCflags(hs) % 2
    ensures FinalCflags(hs, OpOf(hs), BaseOf(hs)) == MapCflags(hs)
    ensures Entry(BaseOf(hs), OpOf(hs)) == C_ERROR <==> if hs.opcode == 0x0f then TwoByteError(OpOf(hs)) else OneByteError(OpOf(hs))
  {
    hide Cflags, Entry, GroupMask, OneByteError, TwoByteError;
    if hs.opcode == 0x0f { TwoByteTable(OpOf(hs)); } else { OneByteTable(OpOf(hs)); }
  }

  lemma LookupByMap(hs: Record, pref: Pref)
    ensures LookupErrors(OpOf(hs), BaseOf(hs), hs.opcode2, pref, false) == if BadOpcode(hs, pref) then {Error, ErrorOpcode} else {}
  {
    hide Meets, Listed, PrefixMask, OneByteError, TwoByteError, Entry, Table;
    CflagsByMap(hs);
    PrefixTable(OpOf(hs));
    MaskMeets(TwoByteForbidden(OpOf(hs)), pref);
  }

  lemma OperandByMap(hs: Record, pref: Pref)
    requires hs.opcode2 != 0 ==> hs.opcode == 0x0f
    ensures OperandBad(hs.opcode2 != 0, OpOf(hs), pref, hs.modrm / 64, hs.modrm % 64 / 8) <==> BadOperand(hs, pref)
  {
    hide TripleForbids, MemoryOnly;
    MemoryForms(OpOf(hs), pref, hs.modrm % 64 / 8);
    MemoryForms2(OpOf(hs), pref, hs.modrm % 64 / 8);
  }

  lemma ModrmByMap(hs: Record, pref: Pref)
    requires hs.opcode2 != 0 ==> hs.opcode == 0x0f
    ensures ModrmErrors(hs.opcode2 != 0, OpOf(hs), GroupMask(BaseOf(hs), OpOf(hs)), pref, hs.modrm) == FormErrors(hs, pref)
  {
    hide ShiftsToTop, GroupMask, FpuForbids, FpuMissing, MissingForm, LockBad, LockForm, OperandBad, BadOperand;
    var op, mod, reg, rm := OpOf(hs), hs.modrm / 64, hs.modrm % 64 / 8, hs.modrm % 8;
    GroupForms(hs.opcode == 0x0f, op, reg);
    if 0xd9 <= op <= 0xdf { FpuForms(op, mod, reg, rm); }
    LockForms(hs.opcode2 != 0, op, mod, reg);
    OperandByMap(hs, pref);
  }

  lemma ModByMap(hs: Record)
    requires hs.opcode2 != 0 ==> hs.opcode == 0x0f
    ensures EffectiveMod(hs.opcode2 != 0, OpOf(hs), hs.mod) == MapMod(hs)
  {
  }

  /** The flags that the decoder finds with its table are those of the maps. */
  lemma FlagsByMap(hs: Record, pref: Pref)
    requires hs.opcode2 != 0 ==> hs.opcode == 0x0f
    ensures FlagsOf(hs, pref, false) == MapFlags(hs, pref)
  {
    hide Cflags, FinalCflags, LookupErrors, ModrmErrors, MapCflags, BadOpcode, FormErrors, GroupMask, ImmFlags, MemoryFlags, EffectiveMod, MapMod, OpOf, BaseOf;
    var q := OpcodePref(hs, pref);
    ModByMap(hs);
    CflagsByMap(hs);
    LookupByMap(hs, q);
    ModrmByMap(hs, q);
  }

  /** The bytes that count as prefixes: the segment overrides, 0x64 to 0x67, LOCK and the two repeats. */
  lemma PrefixSet(b: Byte)
    ensures PrefixKind(b) != NotPrefix <==> (0x20 <= b < 0x40 && b % 8 == 6) || 0x64 <= b <= 0x67 || b in {0xf0, 0xf2, 0xf3}
    ensures PrefixKind(b) == Segment <==> (0x20 <= b < 0x40 && b % 8 == 6) || b == 0x64 || b == 0x65
  {
  }

  lemma PrefixFlagsSay(code: seq<Byte>)
    requires 16 <= |code|
    ensures var s, flags := code[..Leading(code, 0)], PrefixFlags(SeenPref(code));
      && (PrefixRepnz in flags <==> 0xf2 in s) && (PrefixRepx in flags <==> 0xf3 in s) && (Prefix66 in flags <==> 0x66 in s)
      && (Prefix67 in flags <==> 0x67 in s) && (PrefixLock in flags <==> 0xf0 in s)
  {
    hide Leading, PrefixKind;
  }

  lemma SegmentFlagSays(code: seq<Byte>)
    requires 16 <= |code|
    ensures PrefixSeg in PrefixFlags(SeenPref(code)) <==> exists i :: 0 <= i < Leading(code, 0) && PrefixKind(code[i]) == Segment
  {
    hide Leading, PrefixKind;
  }

  /** A decoded record has the flags of the prefixes in front of it and, unless two REX bytes follow each other,
      those that the maps give for the bytes it describes. */
  lemma RecordByMap(code: seq<Byte>, hs: Record, raw: nat)
    requires 32 <= |code| && Decodes(code, hs, raw)
    ensures hs.flags == PrefixFlags(SeenPref(code)) + (if 0x40 <= code[PrefixCount(code)] < 0x50 then {PrefixRex} else {})
      + (if DoubleRex(code) then {Error, ErrorOpcode} + (if SeenPref(code).lock then {Error, ErrorLock} else {})
         else MapFlags(hs, SeenPref(code)))
      + (if raw <= 15 then {} else {Error, ErrorLength})
  {
    hide Describes, PrefixFlags, SeenPref, Leading, FlagsOf, MapFlags, FieldsSplit, RexSplit;
    var pref := SeenPref(code);
    if DoubleRex(code) {
      DoubleRexByMap(hs, pref);
    } else {
      FlagsByMap(hs, pref);
    }
  }

  lemma DoubleRexByMap(hs: Record, pref: Pref)
    ensures FlagsOf(hs, pref, true) == {Error, ErrorOpcode} + if pref.lock then {Error, ErrorLock} else {}
  {
  }
}
