/** The x86-64 length decoder of hde64.c, which fills an instruction record stage by stage. */
module Hde64 {
  import opened Hde64Table

  datatype Flag =
    | Modrm | Sib | Imm8 | Imm16 | Imm32 | Imm64 | Disp8 | Disp16 | Disp32 | Relative
    | Error | ErrorOpcode | ErrorLength | ErrorLock | ErrorOperand
    | PrefixRepnz | PrefixRepx | Prefix66 | Prefix67 | PrefixLock | PrefixSeg | PrefixRex

  // ----- prefixes

  datatype Kind = NotPrefix | Rep | Lock | Segment | OperandSize | AddressSize

  function PrefixKind(b: Byte): (k: Kind) {
    if b == 0xf2 || b == 0xf3 then Rep
    else if b == 0xf0 then Lock
    else if b in {0x26, 0x2e, 0x36, 0x3e, 0x64, 0x65} then Segment
    else if b == 0x66 then OperandSize
    else if b == 0x67 then AddressSize
    else NotPrefix
  }

  /** The prefixes seen; `none` is PRE_NONE. */
  datatype Pref = Pref(none: bool, f2: bool, f3: bool, p66: bool, p67: bool, lock: bool, seg: bool)

  /** The index of the first byte at or after `k` that is no prefix, at most 16. */
  function Leading(code: seq<Byte>, k: nat): (r: nat)
    requires 16 <= |code| && k <= 16
    ensures k <= r <= 16
    ensures forall i :: k <= i < r ==> PrefixKind(code[i]) != NotPrefix
    ensures r < 16 ==> PrefixKind(code[r]) == NotPrefix
    decreases 16 - k
  {
    if k == 16 || PrefixKind(code[k]) == NotPrefix then k else Leading(code, k + 1)
  }

  /** How many bytes count as prefixes; the sixteenth byte is always read as an opcode. */
  function PrefixCount(code: seq<Byte>): (n: nat)
    requires 16 <= |code|
    ensures n <= 15
  {
    if Leading(code, 0) == 16 then 15 else Leading(code, 0)
  }

  /** The last byte of a kind among the first `e`, or 0. */
  function LastOf(code: seq<Byte>, e: nat, kind: Kind): (b: Byte)
    requires e <= |code|
  {
    if e == 0 then 0 else if PrefixKind(code[e - 1]) == kind then code[e - 1] else LastOf(code, e - 1, kind)
  }

  function PrefOf(code: seq<Byte>, e: nat): (pref: Pref)
    requires e <= |code|
  {
    var s := code[..e];
    Pref(false, 0xf2 in s, 0xf3 in s, 0x66 in s, 0x67 in s, 0xf0 in s, exists i :: 0 <= i < e && PrefixKind(code[i]) == Segment)
  }

  function PrefixFlags(pref: Pref): (r: set<Flag>)
    ensures r <= {PrefixRepnz, PrefixRepx, Prefix66, Prefix67, PrefixLock, PrefixSeg}
  {
    (if pref.f2 then {PrefixRepnz} else {}) + (if pref.f3 then {PrefixRepx} else {})
    + (if pref.p66 then {Prefix66} else {}) + (if pref.p67 then {Prefix67} else {})
    + (if pref.lock then {PrefixLock} else {}) + (if pref.seg then {PrefixSeg} else {})
  }

  // ----- bits

  function Pow2(k: nat): (r: nat)
    ensures 0 < r
  {
    if k == 0 then 1 else 2 * Pow2(k - 1)
  }

  predicate Bit(x: Byte, k: nat) {
    x / Pow2(k) % 2 == 1
  }

  /** `(x << m) & 0x80`. */
  predicate ShiftsToTop(x: Byte, m: nat)
    requires m < 8
  {
    Bit(x, 7 - m)
  }

  /** A mask of PRE_ bits meets the prefixes seen. */
  predicate Meets(mask: Byte, pref: Pref) {
    || (Bit(mask, 0) && pref.none) || (Bit(mask, 1) && pref.f2) || (Bit(mask, 2) && pref.f3)
    || (Bit(mask, 3) && pref.p66) || (Bit(mask, 4) && pref.p67) || (Bit(mask, 5) && pref.lock)
    || (Bit(mask, 6) && pref.seg)
  }

  // ----- sizes

  function DispSize(flags: set<Flag>): (r: nat) {
    (if Disp8 in flags then 1 else 0) + (if Disp16 in flags then 2 else 0) + (if Disp32 in flags then 4 else 0)
  }

  function ImmSize(flags: set<Flag>): (r: nat) {
    (if Imm8 in flags then 1 else 0) + (if Imm16 in flags then 2 else 0)
    + (if Imm32 in flags then 4 else 0) + (if Imm64 in flags then 8 else 0)
  }

  /** What a flag byte calls for as an immediate. */
  function ImmFlags(cflags: Byte, p66: bool, op64: bool): (r: set<Flag>) {
    if cflags == 0x50 then (if p66 then {Imm16, Relative} else {Imm32, Relative})
    else if cflags == 0x10 || cflags == 0x11 then (if op64 then {Imm64} else if p66 then {Imm16} else {Imm32})
    else if cflags == 0x20 then {Imm8, Relative}
    else if cflags == 0x06 then {Imm16, Imm8}
    else if cflags == 0x04 then {Imm16}
    else if cflags == 0x02 || cflags == 0x03 then {Imm8}
    else {}
  }

  predicate Has(cflags: Byte, bit: nat)
    requires 0 < bit
  {
    cflags / bit % 2 == 1
  }

  // ----- walks through the tables

  /** The opcode of entry `k` in a table of pairs. */
  function PairKey(start: nat, k: nat): (b: Byte)
    requires start + 2 * k < SIZE
  {
    Table(start + 2 * k)
  }

  /** The opcode of entry `k` in a table of triples. */
  function TripleKey(start: nat, k: nat): (b: Byte)
    requires start + 3 * k < SIZE
  {
    Table(start + 3 * k)
  }

  /** Entry `k` is the first for `op` and allows the register field `reg`. */
  predicate PairAllows(start: nat, op: Byte, reg: nat, k: nat)
    requires start + 2 * k + 1 < SIZE && reg < 8
  {
    && PairKey(start, k) == op && !ShiftsToTop(Table(start + 2 * k + 1), reg)
    && (forall j :: 0 <= j < k ==> PairKey(start, j) != op)
  }

  /** Entry `k` is the first for `op` and rules out a register operand under these prefixes. */
  predicate TripleForbids(start: nat, op: Byte, pref: Pref, reg: nat, k: nat)
    requires start + 3 * k + 2 < SIZE && reg < 8
  {
    && TripleKey(start, k) == op && Meets(Table(start + 3 * k + 1), pref) && !ShiftsToTop(Table(start + 3 * k + 2), reg)
    && (forall j :: 0 <= j < k ==> TripleKey(start, j) != op)
  }

  /** The walk with stride two through a LOCK table lands on its end or stops at an entry for `op`. */
  method LockAllowed(start: nat, end: nat, op: Byte, reg: nat) returns (ok: bool)
    requires start <= end <= SIZE && (end - start) % 2 == 0 && reg < 8
    ensures ok <==> exists k: nat :: k < (end - start) / 2 && PairAllows(start, op, reg, k)
  {
    hide Table, ShiftsToTop;
    var ht := start;
    ghost var k: nat := 0;
    while ht != end
      invariant ht == start + 2 * k <= end
      invariant forall j :: 0 <= j < k ==> PairKey(start, j) != op
      decreases end - ht
    {
      if Table(ht) == op {
        ok := !ShiftsToTop(Table(ht + 1), reg);
        assert ok == PairAllows(start, op, reg, k);
        assert PairKey(start, k) == op;
        return;
      }
      ht := ht + 2;
      k := k + 1;
    }
    ok := false;
  }

  /** The walk with stride three through a table of opcodes that only take memory operands. */
  method OnlyMemory(start: nat, end: nat, op: Byte, pref: Pref, reg: nat) returns (bad: bool)
    requires start <= end <= SIZE && (end - start) % 3 == 0 && reg < 8
    ensures bad <==> exists k: nat :: k < (end - start) / 3 && TripleForbids(start, op, pref, reg, k)
  {
    hide Table, ShiftsToTop, Meets;
    var ht := start;
    ghost var k: nat := 0;
    while ht != end
      invariant ht == start + 3 * k <= end
      invariant forall j :: 0 <= j < k ==> TripleKey(start, j) != op
      decreases end - ht
    {
      if Table(ht) == op {
        bad := Meets(Table(ht + 1), pref) && !ShiftsToTop(Table(ht + 2), reg);
        assert bad == TripleForbids(start, op, pref, reg, k);
        assert TripleKey(start, k) == op;
        return;
      }
      ht := ht + 3;
      k := k + 1;
    }
    bad := false;
  }

  /** The prefix bytes a record keeps: the last of each kind. */
  datatype PrefixBytes = PrefixBytes(rep: Byte, lock: Byte, seg: Byte, p66: Byte, p67: Byte)

  function PrefixBytesOf(code: seq<Byte>, e: nat): (r: PrefixBytes)
    requires e <= |code|
  {
    PrefixBytes(LastOf(code, e, Rep), LastOf(code, e, Lock), LastOf(code, e, Segment),
                LastOf(code, e, OperandSize), LastOf(code, e, AddressSize))
  }

  /** One turn of the prefix switch. */
  function NotePref(pref: Pref, b: Byte): (r: Pref) {
    match PrefixKind(b)
    case Rep => if b == 0xf3 then pref.(f3 := true) else pref.(f2 := true)
    case Lock => pref.(lock := true)
    case Segment => pref.(seg := true)
    case OperandSize => pref.(p66 := true)
    case AddressSize => pref.(p67 := true)
    case NotPrefix => pref
  }

  function NoteByte(kept: PrefixBytes, b: Byte): (r: PrefixBytes) {
    match PrefixKind(b)
    case Rep => kept.(rep := b)
    case Lock => kept.(lock := b)
    case Segment => kept.(seg := b)
    case OperandSize => kept.(p66 := b)
    case AddressSize => kept.(p67 := b)
    case NotPrefix => kept
  }

  lemma NoteNext(code: seq<Byte>, e: nat)
    requires e < |code|
    ensures PrefOf(code, e + 1) == NotePref(PrefOf(code, e), code[e])
    ensures PrefixBytesOf(code, e + 1) == NoteByte(PrefixBytesOf(code, e), code[e])
  {
    assert code[..e + 1] == code[..e] + [code[e]];
  }

  /** The prefix loop. */
  method ReadPrefixes(code: seq<Byte>) returns (p: nat, c: Byte, pref: Pref, kept: PrefixBytes)
    requires 32 <= |code|
    ensures p == PrefixCount(code) + 1 && c == code[p - 1]
    ensures pref == PrefOf(code, Leading(code, 0)) && kept == PrefixBytesOf(code, Leading(code, 0))
  {
    pref := Pref(false, false, false, false, false, false, false);
    kept := PrefixBytes(0, 0, 0, 0, 0);
    p, c := 0, 0;
    assert pref == PrefOf(code, 0);
    hide PrefOf, PrefixBytesOf, NotePref, NoteByte;
    var x := 16;
    while x != 0
      invariant p + x == 16 && 0 <= x && Leading(code, 0) == Leading(code, p)
      invariant p != 0 ==> c == code[p - 1]
      invariant pref == PrefOf(code, p) && kept == PrefixBytesOf(code, p)
    {
      NoteNext(code, p);
      c := code[p];
      p := p + 1;
      if PrefixKind(c) == NotPrefix { return; }
      pref, kept := NotePref(pref, c), NoteByte(kept, c);
      x := x - 1;
    }
  }

  // ----- the record

  datatype Record = Record(
    len: nat, prefixes: PrefixBytes, rexW: nat, rexR: nat, rexX: nat, rexB: nat, opcode: Byte, opcode2: Byte,
    modrm: Byte, mod: nat, reg: nat, rm: nat, sib: Byte, scale: nat, index: nat, base: nat,
    imm: seq<Byte>, disp: seq<Byte>, flags: set<Flag>)

  const BLANK: Record := Record(0, PrefixBytes(0, 0, 0, 0, 0), 0, 0, 0, 0, 0, 0, 0, 0, 0, 0, 0, 0, 0, 0,
                                [0, 0, 0, 0, 0, 0, 0, 0], [0, 0, 0, 0], {})

  /** The bytes of an instruction that a record stands for, part by part. */
  function RexBytes(hs: Record): (r: seq<int>)
    ensures |r| <= 1
  {
    if PrefixRex in hs.flags then [0x40 + 8 * hs.rexW + 4 * hs.rexR + 2 * hs.rexX + hs.rexB] else []
  }

  function OpcodeBytes(hs: Record): (r: seq<int>)
    ensures 1 <= |r| <= 2
  {
    if hs.opcode == 0x0f then [0x0f, hs.opcode2] else [hs.opcode]
  }

  function ModrmBytes(hs: Record): (r: seq<int>)
    requires DispSize(hs.flags) <= |hs.disp|
  {
    (if Modrm in hs.flags then [hs.modrm] else []) + (if Sib in hs.flags then [hs.sib] else []) + hs.disp[..DispSize(hs.flags)]
  }

  function ImmBytes(hs: Record): (r: seq<int>)
    requires ImmSize(hs.flags) <= |hs.imm|
  {
    hs.imm[..ImmSize(hs.flags)]
  }

  predicate ZeroFrom(field: seq<Byte>, k: nat) {
    forall i :: k <= i < |field| ==> field[i] == 0
  }

  /** The fields of ModRM, SIB and displacement are 0 where those are absent. */
  predicate OperandsElseZero(hs: Record) {
    && (Modrm !in hs.flags ==> hs.modrm == 0 && hs.mod == hs.reg == hs.rm == 0)
    && (Sib !in hs.flags ==> hs.sib == 0 && hs.scale == hs.index == hs.base == 0)
    && ZeroFrom(hs.disp, DispSize(hs.flags))
  }

  /** The one instruction with two immediates. */
  predicate Enter(hs: Record) {
    {Imm16, Imm8} <= hs.flags
  }

  /** Whatever was not read is 0. */
  predicate ElseZero(hs: Record) {
    && (hs.opcode != 0x0f ==> hs.opcode2 == 0)
    && OperandsElseZero(hs)
    && ZeroFrom(hs.imm, if Enter(hs) then 2 else ImmSize(hs.flags))
  }

  /** Writing to one member of a union leaves its other bytes. */
  function Overlay(field: seq<Byte>, bytes: seq<Byte>): (r: seq<Byte>)
    requires |bytes| <= |field|
    ensures |r| == |field| && r[..|bytes|] == bytes
  {
    bytes + field[|bytes|..]
  }

  lemma OverlayZero(field: seq<Byte>, bytes: seq<Byte>, k: nat)
    requires |bytes| <= |field| && ZeroFrom(field, k)
    ensures ZeroFrom(Overlay(field, bytes), if k < |bytes| then |bytes| else k)
  {
  }

  // ----- REX and opcode

  /** The opcode byte that selects a table entry, and the table it is looked up in. */
  function OpOf(hs: Record): (op: Byte) {
    if hs.opcode == 0x0f then hs.opcode2 else hs.opcode
  }

  function BaseOf(hs: Record): (base: nat)
    ensures base == 0 || base == DELTA_OPCODES
  {
    if hs.opcode == 0x0f then DELTA_OPCODES else 0
  }

  /** Moves between the accumulator and an absolute address. */
  predicate Absolute(hs: Record) {
    0xa0 <= hs.opcode <= 0xa3
  }

  /** These take the width of their immediate from the address size. */
  function OpcodePref(hs: Record, pref: Pref): (r: Pref) {
    if Absolute(hs) then pref.(p66 := pref.p67) else pref
  }

  /** The opcodes with a 64-bit immediate. */
  predicate Wide(hs: Record) {
    Absolute(hs) || (hs.rexW == 1 && 0xb8 <= hs.opcode <= 0xbf)
  }

  /** The REX fields are the four low bits of a REX byte, and 0 without one. */
  predicate RexSplit(hs: Record, c: Byte) {
    if c / 16 == 4 then hs.rexW == c % 16 / 8 && hs.rexR == c % 8 / 4 && hs.rexX == c % 4 / 2 && hs.rexB == c % 2
    else hs.rexW == hs.rexR == hs.rexX == hs.rexB == 0
  }

  /** A REX prefix, if the first byte after the other prefixes is one. */
  method ReadRex(code: seq<Byte>, p: nat, c: Byte, hs: Record) returns (newP: nat, newHs: Record, op: Byte, op64: bool)
    requires 32 <= |code| && 1 <= p <= 16 && c == code[p - 1]
    requires PrefixRex !in hs.flags && hs.rexW == hs.rexR == hs.rexX == hs.rexB == 0
    ensures RexSplit(newHs, c)
    ensures newP == (if c / 16 == 4 then p + 1 else p) == p + |RexBytes(newHs)|
    ensures op == code[newP - 1] && code[p - 1..newP - 1] == RexBytes(newHs)
    ensures newHs == hs.(flags := newHs.flags, rexW := newHs.rexW, rexR := newHs.rexR, rexX := newHs.rexX, rexB := newHs.rexB)
    ensures newHs.flags == hs.flags + if c / 16 == 4 then {PrefixRex} else {}
    ensures op64 <==> newHs.rexW == 1 && 0xb8 <= op <= 0xbf
  {
    newP, newHs, op, op64 := p, hs, c, false;
    if c / 16 == 4 {
      newHs := newHs.(flags := newHs.flags + {PrefixRex}, rexW := c % 16 / 8, rexR := c % 8 / 4, rexX := c % 4 / 2, rexB := c % 2);
      op64 := newHs.rexW == 1 && code[p] / 8 == 0xb8 / 8;
      op := code[p];
      newP := p + 1;
    }
  }

  /** The opcode, of one byte or two. */
  method ReadOpcode(code: seq<Byte>, p: nat, c: Byte, pref: Pref, rexWide: bool, hs: Record)
    returns (newP: nat, newHs: Record, op: Byte, base: nat, newPref: Pref, op64: bool)
    requires 32 <= |code| && 1 <= p <= 17 && c == code[p - 1] && hs.opcode2 == 0
    requires rexWide <==> hs.rexW == 1 && 0xb8 <= c <= 0xbf
    ensures newHs == hs.(opcode := newHs.opcode, opcode2 := newHs.opcode2) && (newHs.opcode != 0x0f ==> newHs.opcode2 == 0)
    ensures p <= newP <= p + 1 && code[p - 1..newP] == OpcodeBytes(newHs)
    ensures op == OpOf(newHs) && base == BaseOf(newHs) && newPref == OpcodePref(newHs, pref)
    ensures op64 <==> Wide(newHs)
  {
    newP, newHs, op, base, newPref, op64 := p, hs.(opcode := c), c, 0, pref, rexWide;
    if op == 0x0f {
      op := code[newP];
      newHs := newHs.(opcode2 := op);
      newP := newP + 1;
      base := DELTA_OPCODES;
    } else if 0xa0 <= op <= 0xa3 {
      op64 := true;
      newPref := pref.(p66 := pref.p67);
    }
  }

  predicate PrefixesForbidden(op: Byte, pref: Pref) {
    Meets(PrefixMask(op), pref)
  }

  /** An opcode is an error if it has no entry, if its prefixes are forbidden, or if it is a second REX. */
  function LookupErrors(op: Byte, base: nat, opcode2: Byte, pref: Pref, doubleRex: bool): (r: set<Flag>)
    requires base <= DELTA_OPCODES
    ensures r <= {Error, ErrorOpcode}
  {
    if doubleRex || Entry(base, op) == C_ERROR || (opcode2 != 0 && PrefixesForbidden(op, pref)) then {Error, ErrorOpcode} else {}
  }

  /** The table lookup with its error and group entries, and the prefixes a two-byte opcode forbids. */
  method Lookup(op: Byte, base: nat, opcode2: Byte, pref: Pref, doubleRex: bool) returns (cflags: Byte, x: Byte, errors: set<Flag>)
    requires base == 0 || base == DELTA_OPCODES
    requires doubleRex ==> base == 0 && op / 16 == 4 && opcode2 == 0
    ensures cflags == (if doubleRex then 0 else Cflags(base, op)) && x == (if doubleRex then 0 else GroupMask(base, op))
    ensures errors == LookupErrors(op, base, opcode2, pref, doubleRex)
  {
    hide Table, Meets;
    errors, x := {}, 0;
    if !doubleRex { cflags := Entry(base, op); }
    if doubleRex || cflags == C_ERROR {
      errors := {Error, ErrorOpcode};
      cflags := if op == 0x24 || op == 0x26 then 1 else 0;
    }
    if 0x80 <= cflags {
      var t := base + cflags % 0x80;
      cflags := Table(t);
      x := Table(t + 1);
    }
    if opcode2 != 0 {
      if PrefixesForbidden(op, pref) { errors := {Error, ErrorOpcode}; }
    }
  }

  // ----- ModRM

  /** The FPU rows of the table: does this form of 0xd9..0xdf exist? */
  predicate FpuForbids(op: Byte, mod: nat, reg: nat, rm: nat)
    requires 0xd9 <= op <= 0xdf && reg < 8 && rm < 8
  {
    if mod == 3 then ShiftsToTop(Table(DELTA_FPU_MODRM + 8 * (op - 0xd9) + reg), rm)
    else ShiftsToTop(Table(DELTA_FPU_REG + (op - 0xd9)), reg)
  }

  /** `op & -2`. */
  function Even(op: Byte): (r: Byte) {
    op - op % 2
  }

  /** The LOCK rule for an instruction with a ModRM byte: a memory operand, and an entry that allows it. */
  ghost predicate LockBad(twoByte: bool, op: Byte, mod: nat, reg: nat)
    requires reg < 8
  {
    || mod == 3
    || (twoByte && !exists k: nat :: k < 9 && PairAllows(DELTA_OP2_LOCK_OK, op, reg, k))
    || (!twoByte && !exists k: nat :: k < 12 && PairAllows(DELTA_OP_LOCK_OK, Even(op), reg, k))
  }

  method LockError(twoByte: bool, op: Byte, mod: nat, reg: nat) returns (bad: bool)
    requires reg < 8
    ensures bad <==> LockBad(twoByte, op, mod, reg)
  {
    hide PairAllows;
    if mod == 3 { return true; }
    var ok;
    if twoByte {
      ok := LockAllowed(DELTA_OP2_LOCK_OK, DELTA_OP_ONLY_MEM, op, reg);
    } else {
      ok := LockAllowed(DELTA_OP_LOCK_OK, DELTA_OP2_LOCK_OK, Even(op), reg);
    }
    bad := !ok;
  }

  /** Control and debug register moves always use the register form. */
  function EffectiveMod(twoByte: bool, op: Byte, mod: nat): (r: nat)
    ensures r == mod || r == 3
  {
    if twoByte && 0x20 <= op <= 0x23 then 3 else mod
  }

  /** The operand rules: special registers, register forms of memory-only opcodes, and a few two-byte cases. */
  ghost predicate OperandBad(twoByte: bool, op: Byte, pref: Pref, mod: nat, reg: nat)
    requires reg < 8
  {
    if twoByte && (op == 0x20 || op == 0x22) then 4 < reg || reg == 1
    else if twoByte && (op == 0x21 || op == 0x23) then reg == 4 || reg == 5
    else if !twoByte && op == 0x8c then 5 < reg
    else if !twoByte && op == 0x8e then reg == 1 || 5 < reg
    else if mod == 3 && twoByte then exists k: nat :: k < 14 && TripleForbids(DELTA_OP2_ONLY_MEM, op, pref, reg, k)
    else if mod == 3 then exists k: nat :: k < 5 && TripleForbids(DELTA_OP_ONLY_MEM, op, pref, reg, k)
    else twoByte && (|| (op in {0x50, 0xd7, 0xf7} && (pref.none || pref.p66))
                     || (op == 0xd6 && (pref.f2 || pref.f3))
                     || op == 0xc5)
  }

  method OperandError(twoByte: bool, op: Byte, pref: Pref, mod: nat, reg: nat) returns (bad: bool)
    requires reg < 8
    ensures bad <==> OperandBad(twoByte, op, pref, mod, reg)
  {
    hide TripleForbids;
    if twoByte && (op == 0x20 || op == 0x22) { return 4 < reg || reg == 1; }
    if twoByte && (op == 0x21 || op == 0x23) { return reg == 4 || reg == 5; }
    if !twoByte && op == 0x8c { return 5 < reg; }
    if !twoByte && op == 0x8e { return reg == 1 || 5 < reg; }
    if mod == 3 {
      if twoByte {
        bad := OnlyMemory(DELTA_OP2_ONLY_MEM, SIZE, op, pref, reg);
      } else {
        bad := OnlyMemory(DELTA_OP_ONLY_MEM, DELTA_OP2_ONLY_MEM, op, pref, reg);
      }
    } else if twoByte {
      bad := || (op in {0x50, 0xd7, 0xf7} && (pref.none || pref.p66))
             || (op == 0xd6 && (pref.f2 || pref.f3))
             || op == 0xc5;
    } else {
      bad := false;
    }
  }

  /** The displacement that a ModRM byte and the byte after it call for. */
  function DispLength(mod: nat, rm: nat, p67: bool, sib: Byte): (r: nat)
    ensures r in {0, 1, 2, 4}
  {
    if mod != 3 && rm == 4 && sib % 8 == 5 && mod % 2 == 0 then 4
    else if mod == 0 then (if p67 then (if rm == 6 then 2 else 0) else if rm == 5 then 4 else 0)
    else if mod == 1 then 1
    else if mod == 2 then (if p67 then 2 else 4)
    else 0
  }

  /** The byte after ModRM matters only where it is a SIB byte. */
  lemma SibMatters(mod: nat, rm: nat, p67: bool, next: Byte, sib: Byte)
    requires mod != 3 && rm == 4 ==> next == sib
    ensures DispLength(mod, rm, p67, next) == DispLength(mod, rm, p67, sib)
  {
  }

  function DispFlags(size: nat): (r: set<Flag>) {
    if size == 1 then {Disp8} else if size == 2 then {Disp16} else if size == 4 then {Disp32} else {}
  }

  /** The SIB byte, if there is one, and the displacement size. */
  method ReadSib(code: seq<Byte>, p: nat, mod: nat, p67: bool, hs: Record) returns (newP: nat, newHs: Record, dispSize: nat)
    requires p < |code| && mod <= 3 && Sib !in hs.flags
    ensures dispSize == DispLength(mod, hs.rm, p67, code[p])
    ensures if mod != 3 && hs.rm == 4
            then newP == p + 1 && newHs == hs.(flags := hs.flags + {Sib}, sib := code[p], scale := code[p] / 64,
                                               index := code[p] % 64 / 8, base := code[p] % 8)
            else newP == p && newHs == hs
  {
    var c := code[p];
    newP, newHs, dispSize := p, hs, 0;
    if mod == 0 {
      if p67 {
        if hs.rm == 6 { dispSize := 2; }
      } else if hs.rm == 5 { dispSize := 4; }
    } else if mod == 1 {
      dispSize := 1;
    } else if mod == 2 {
      dispSize := if p67 then 2 else 4;
    }
    if mod != 3 && hs.rm == 4 {
      newHs := newHs.(flags := newHs.flags + {Sib}, sib := c, scale := c / 64, index := c % 64 / 8, base := c % 8);
      newP := newP + 1;
      if newHs.base == 5 && mod % 2 == 0 { dispSize := 4; }
    }
  }

  lemma DispFlagsSize(flags: set<Flag>, size: nat)
    requires size in {0, 1, 2, 4} && DispSize(flags) == 0
    ensures DispSize(flags + DispFlags(size)) == size
    ensures DispFlags(size) !! {Modrm, Sib, PrefixRex}
  {
  }

  lemma MemoryBytes(hs: Record, code: seq<Byte>, p: nat, q: nat, size: nat)
    requires p <= q && q + size <= |code| && size <= |hs.disp| && hs.disp[..size] == code[q..q + size]
    requires Modrm in hs.flags && DispSize(hs.flags) == size && code[p..q] == if Sib in hs.flags then [hs.sib] else []
    ensures [hs.modrm] + code[p..q + size] == ModrmBytes(hs)
  {
    assert code[p..q + size] == code[p..q] + code[q..q + size];
  }

  /** SIB and displacement, from the byte after ModRM. */
  method ReadMemory(code: seq<Byte>, p: nat, mod: nat, p67: bool, hs: Record) returns (newP: nat, newHs: Record)
    requires 32 <= |code| && p <= 19 && mod <= 3
    requires |hs.disp| == 4 && Modrm in hs.flags && Sib !in hs.flags && DispSize(hs.flags) == 0
    ensures p <= newP <= p + 5
    ensures var size := DispLength(mod, hs.rm, p67, code[p]);
      && newHs.flags == hs.flags + (if mod != 3 && hs.rm == 4 then {Sib} else {}) + DispFlags(size)
      && newP == p + (if mod != 3 && hs.rm == 4 then 1 else 0) + size && DispSize(newHs.flags) == size
      && (mod != 3 && hs.rm == 4 ==> newHs.sib == code[p])
    ensures |newHs.disp| == 4 && [newHs.modrm] + code[p..newP] == ModrmBytes(newHs)
    ensures ZeroFrom(hs.disp, 0) ==> ZeroFrom(newHs.disp, DispSize(newHs.flags))
    ensures Sib !in newHs.flags ==> newHs.sib == hs.sib && newHs.scale == hs.scale && newHs.index == hs.index && newHs.base == hs.base
    ensures Sib in newHs.flags ==>
      newHs.scale == newHs.sib / 64 && newHs.index == newHs.sib % 64 / 8 && newHs.base == newHs.sib % 8
    ensures newHs == hs.(sib := newHs.sib, scale := newHs.scale, index := newHs.index, base := newHs.base,
                         disp := newHs.disp, flags := newHs.flags)
  {
    hide DispLength, DispFlags, ZeroFrom, Overlay, ModrmBytes;
    var dispSize;
    newP, newHs, dispSize := ReadSib(code, p, mod, p67, hs);
    DispFlagsSize(newHs.flags, dispSize);
    var bytes := code[newP..newP + dispSize];
    if ZeroFrom(hs.disp, 0) { OverlayZero(newHs.disp, bytes, 0); }
    newHs := newHs.(flags := newHs.flags + DispFlags(dispSize), disp := Overlay(newHs.disp, bytes));
    MemoryBytes(newHs, code, p, newP, dispSize);
    newP := newP + dispSize;
  }

  /** The error flags that a ModRM byte gives rise to. */
  ghost function ModrmErrors(twoByte: bool, op: Byte, x: Byte, pref: Pref, modrm: Byte): (r: set<Flag>)
    ensures r <= {Error, ErrorOpcode, ErrorLock, ErrorOperand}
  {
    var mod, reg, rm := modrm / 64, modrm % 64 / 8, modrm % 8;
    (if ShiftsToTop(x, reg) || (!twoByte && 0xd9 <= op <= 0xdf && FpuForbids(op, mod, reg, rm)) then {Error, ErrorOpcode} else {})
    + (if pref.lock && LockBad(twoByte, op, mod, reg) then {Error, ErrorLock} else {})
    + (if OperandBad(twoByte, op, pref, mod, reg) then {Error, ErrorOperand} else {})
  }

  /** The checks on a ModRM byte, in the order of the source. */
  method CheckModrm(twoByte: bool, op: Byte, x: Byte, pref: Pref, modrm: Byte) returns (errors: set<Flag>)
    ensures errors == ModrmErrors(twoByte, op, x, pref, modrm)
  {
    hide ShiftsToTop, FpuForbids, LockBad, OperandBad;
    var mod, reg, rm := modrm / 64, modrm % 64 / 8, modrm % 8;
    errors := {};
    if ShiftsToTop(x, reg) { errors := errors + {Error, ErrorOpcode}; }
    if !twoByte && 0xd9 <= op <= 0xdf {
      if FpuForbids(op, mod, reg, rm) { errors := errors + {Error, ErrorOpcode}; }
    }
    if pref.lock {
      var bad := LockError(twoByte, op, mod, reg);
      if bad { errors := errors + {Error, ErrorLock}; }
    }
    var bad := OperandError(twoByte, op, pref, mod, reg);
    if bad { errors := errors + {Error, ErrorOperand}; }
  }

  /** 0xf6 and 0xf7 take an immediate in their first two forms, whether one-byte or two-byte. */
  function AdjustCflags(cflags: Byte, op: Byte, reg: nat): (r: Byte) {
    if 0x80 <= cflags then cflags
    else if reg <= 1 && op == 0xf6 && !Has(cflags, 0x02) then cflags + 0x02
    else if reg <= 1 && op == 0xf7 && !Has(cflags, 0x10) then cflags + 0x10
    else cflags
  }

  /** The flags of a SIB byte and a displacement. */
  function MemoryFlags(mod: nat, rm: nat, p67: bool, sib: Byte): (r: set<Flag>)
    ensures r <= {Sib, Disp8, Disp16, Disp32}
  {
    (if mod != 3 && rm == 4 then {Sib} else {}) + DispFlags(DispLength(mod, rm, p67, sib))
  }

  method ReadModrm(code: seq<Byte>, p: nat, op: Byte, cflags: Byte, x: Byte, pref: Pref, hs: Record)
    returns (newP: nat, newHs: Record, newCflags: Byte)
    requires 32 <= |code| && p <= 18
    requires |hs.disp| == 4 && Modrm !in hs.flags && Sib !in hs.flags && DispSize(hs.flags) == 0
    ensures p < newP <= p + 6
    ensures newHs.modrm == code[p] && newHs.mod == code[p] / 64 && newHs.reg == code[p] % 64 / 8 && newHs.rm == code[p] % 8
    ensures newHs.flags == hs.flags + {Modrm} + ModrmErrors(hs.opcode2 != 0, op, x, pref, code[p])
                           + MemoryFlags(EffectiveMod(hs.opcode2 != 0, op, newHs.mod), newHs.rm, pref.p67, newHs.sib)
    ensures DispSize(newHs.flags) <= 4
    ensures |newHs.disp| == 4 && code[p..newP] == ModrmBytes(newHs)
    ensures ZeroFrom(hs.disp, 0) ==> ZeroFrom(newHs.disp, DispSize(newHs.flags))
    ensures Sib !in newHs.flags ==> newHs.sib == hs.sib && newHs.scale == hs.scale && newHs.index == hs.index && newHs.base == hs.base
    ensures Sib in newHs.flags ==>
      newHs.scale == newHs.sib / 64 && newHs.index == newHs.sib % 64 / 8 && newHs.base == newHs.sib % 8
    ensures newHs == hs.(modrm := newHs.modrm, mod := newHs.mod, reg := newHs.reg, rm := newHs.rm, sib := newHs.sib,
                         scale := newHs.scale, index := newHs.index, base := newHs.base, disp := newHs.disp, flags := newHs.flags)
    ensures newCflags == AdjustCflags(cflags, op, newHs.reg)
  {
    hide ModrmErrors, DispFlags, DispLength, AdjustCflags, ModrmBytes, EffectiveMod;
    var c := code[p];
    var errors := CheckModrm(hs.opcode2 != 0, op, x, pref, c);
    newHs := hs.(modrm := c, mod := c / 64, reg := c % 64 / 8, rm := c % 8, flags := hs.flags + {Modrm} + errors);
    var mod := EffectiveMod(hs.opcode2 != 0, op, newHs.mod);
    newCflags := AdjustCflags(cflags, op, newHs.reg);
    newP, newHs := ReadMemory(code, p + 1, mod, pref.p67, newHs);
    SibMatters(mod, newHs.rm, pref.p67, code[p + 1], newHs.sib);
    assert code[p..newP] == [c] + code[p + 1..newP];
  }

  // ----- immediates

  function ImmLength(cflags: Byte, p66: bool, op64: bool): (r: nat)
    ensures r <= 8
  {
    if cflags == 0x50 then (if p66 then 2 else 4)
    else if cflags == 0x10 || cflags == 0x11 then (if op64 then 8 else if p66 then 2 else 4)
    else if cflags == 0x06 then 3
    else if cflags == 0x04 then 2
    else if cflags == 0x02 || cflags == 0x03 || cflags == 0x20 then 1
    else 0
  }

  lemma ImmFlagsSize(flags: set<Flag>, cflags: Byte, p66: bool, op64: bool)
    requires ImmSize(flags) == 0
    ensures ImmSize(flags + ImmFlags(cflags, p66, op64)) == ImmLength(cflags, p66, op64)
    ensures ImmFlags(cflags, p66, op64) <= {Imm8, Imm16, Imm32, Imm64, Relative}
    ensures cflags != 0x06 ==> !({Imm16, Imm8} <= flags + ImmFlags(cflags, p66, op64))
    ensures cflags == 0x06 ==> ImmFlags(cflags, p66, op64) == {Imm16, Imm8}
    ensures cflags == 0x00 ==> ImmFlags(cflags, p66, op64) == {}
  {
  }

  /** Stores `n` immediate bytes at the start of the union. */
  function TakeImm(hs: Record, code: seq<Byte>, p: nat, n: nat, flags: set<Flag>): (r: Record)
    requires p + n <= |code| && n <= |hs.imm|
    ensures |r.imm| == |hs.imm|
  {
    hs.(flags := hs.flags + flags, imm := Overlay(hs.imm, code[p..p + n]))
  }

  /** The immediate, from the flag byte; the source's jumps between its blocks become flags. */
  method ReadImmediate(code: seq<Byte>, p: nat, cflags: Byte, p66: bool, op64: bool, hs: Record) returns (newP: nat, newHs: Record)
    requires 32 <= |code| && p <= 24 && cflags in KNOWN_CFLAGS && |hs.imm| == 8
    ensures newP == p + ImmLength(cflags, p66, op64)
    ensures cflags == 0x06 ==> newHs == TakeImm(TakeImm(hs, code, p, 2, {Imm16}), code, p + 2, 1, {Imm8})
    ensures cflags != 0x06 ==> newHs == TakeImm(hs, code, p, ImmLength(cflags, p66, op64), ImmFlags(cflags, p66, op64))
  {
    hide TakeImm;
    newP, newHs := p, hs;
    var immediate16, immediate8, relative32, relative8 :=
      Has(cflags, 0x04), Has(cflags, 0x02), Has(cflags, 0x40), Has(cflags, 0x20);
    if Has(cflags, 0x10) {
      if relative32 {
        immediate16, immediate8 := false, false;
        if p66 {
          newP, newHs := newP + 2, TakeImm(newHs, code, newP, 2, {Imm16, Relative});
          relative32, relative8 := false, false;
        }
      } else if op64 {
        newP, newHs := newP + 8, TakeImm(newHs, code, newP, 8, {Imm64});
      } else if !p66 {
        newP, newHs := newP + 4, TakeImm(newHs, code, newP, 4, {Imm32});
      } else {
        immediate16 := true;
      }
    }
    if immediate16 { newP, newHs := newP + 2, TakeImm(newHs, code, newP, 2, {Imm16}); }
    if immediate8 { newP, newHs := newP + 1, TakeImm(newHs, code, newP, 1, {Imm8}); }
    if relative32 {
      newP, newHs := newP + 4, TakeImm(newHs, code, newP, 4, {Imm32, Relative});
    } else if relative8 {
      newP, newHs := newP + 1, TakeImm(newHs, code, newP, 1, {Imm8, Relative});
    }
    if newP == p { TakeNothing(hs, code, p); }
  }

  lemma TakeNothing(hs: Record, code: seq<Byte>, p: nat)
    requires p <= |code|
    ensures TakeImm(hs, code, p, 0, {}) == hs
  {
    assert code[p..p] + hs.imm[0..] == hs.imm;
  }

  // ----- the whole instruction

  /** A REX byte directly followed by another: the second one is never recorded. */
  predicate DoubleRex(code: seq<Byte>)
    requires 32 <= |code|
  {
    var n := PrefixCount(code);
    code[n] / 16 == 4 && code[n + 1] / 16 == 4
  }

  /** The length that a record's flags add up to, after `n` prefixes. */
  function FlagLength(hs: Record, n: nat): (r: nat) {
    n + |RexBytes(hs)| + |OpcodeBytes(hs)| + (if Modrm in hs.flags then 1 else 0) + (if Sib in hs.flags then 1 else 0)
    + DispSize(hs.flags) + ImmSize(hs.flags)
  }

  /** Flags that only an opcode's operands can set. */
  ghost predicate NoOperandFlags(flags: set<Flag>) {
    flags !! {Modrm, Sib, Imm8, Imm16, Imm32, Imm64, Disp8, Disp16, Disp32, Relative}
  }

  lemma AdjustKnown(base: nat, op: Byte, reg: nat)
    requires base == 0 || base == DELTA_OPCODES
    ensures Cflags(base, op) < 0x80 && AdjustCflags(Cflags(base, op), op, reg) in KNOWN_CFLAGS
    ensures Cflags(base, op) % 2 == 1 ==> AdjustCflags(Cflags(base, op), op, reg) != 0x06
  {
    hide Cflags;
    CflagsKnown(base, op);
  }

  /** The flag byte that selects the immediate. */
  function FinalCflags(hs: Record, op: Byte, base: nat): (r: Byte)
    requires base == 0 || base == DELTA_OPCODES
  {
    if Cflags(base, op) % 2 == 1 then AdjustCflags(Cflags(base, op), op, hs.reg) else Cflags(base, op)
  }

  /** The flags that the table and the operand bytes call for. */
  ghost function OperandFlagsOf(hs: Record, op: Byte, base: nat, pref: Pref, doubleRex: bool): (r: set<Flag>)
    requires base == 0 || base == DELTA_OPCODES
  {
    LookupErrors(op, base, hs.opcode2, pref, doubleRex)
    + (if !doubleRex && Cflags(base, op) % 2 == 1
       then {Modrm} + ModrmErrors(hs.opcode2 != 0, op, GroupMask(base, op), pref, hs.modrm)
            + MemoryFlags(EffectiveMod(hs.opcode2 != 0, op, hs.mod), hs.rm, pref.p67, hs.sib)
       else if pref.lock then {Error, ErrorLock} else {})
  }

  /** From the table lookup to the end of ModRM, SIB and displacement. */
  method ReadOperands(code: seq<Byte>, p: nat, op: Byte, base: nat, pref: Pref, doubleRex: bool, hs: Record)
    returns (newP: nat, newHs: Record, cflags: Byte)
    requires 32 <= |code| && p <= 18 && (base == 0 || base == DELTA_OPCODES)
    requires doubleRex ==> base == 0 && op / 16 == 4 && hs.opcode2 == 0
    requires |hs.disp| == 4 && NoOperandFlags(hs.flags) && OperandsElseZero(hs)
    ensures p <= newP <= p + 6
    ensures cflags in KNOWN_CFLAGS && (cflags == 0x06 ==> base == 0 && op == 0xc8 && newP == p)
    ensures Modrm in newHs.flags <==> !doubleRex && Cflags(base, op) % 2 == 1
    ensures cflags == if doubleRex then 0 else FinalCflags(newHs, op, base)
    ensures Modrm !in newHs.flags ==> newP == p
    ensures newHs.flags == hs.flags + OperandFlagsOf(newHs, op, base, pref, doubleRex)
    ensures |newHs.disp| == 4 && DispSize(newHs.flags) <= 4 && code[p..newP] == ModrmBytes(newHs)
    ensures newP == p + |ModrmBytes(newHs)|
    ensures newHs.opcode == hs.opcode && newHs.opcode2 == hs.opcode2 && newHs.imm == hs.imm && newHs.prefixes == hs.prefixes
    ensures newHs.rexW == hs.rexW && newHs.rexR == hs.rexR && newHs.rexX == hs.rexX && newHs.rexB == hs.rexB
    ensures hs.flags <= newHs.flags
    ensures newHs.flags - hs.flags <= {Modrm, Sib, Disp8, Disp16, Disp32, Error, ErrorOpcode, ErrorLock, ErrorOperand}
    ensures FieldsSplit(newHs) && OperandsElseZero(newHs)
  {
    hide Cflags, Entry, PrefixesForbidden, DispLength, ModrmErrors, AdjustCflags, GroupMask, LookupErrors, EffectiveMod, MemoryFlags;
    var x, errors;
    cflags, x, errors := Lookup(op, base, hs.opcode2, pref, doubleRex);
    CflagsKnown(base, op);
    newP, newHs := p, hs.(flags := hs.flags + errors);
    if cflags % 2 == 1 {
      newP, newHs, cflags := ReadModrm(code, p, op, cflags, x, pref, newHs);
      AdjustKnown(base, op, newHs.reg);
    } else if pref.lock {
      newHs := newHs.(flags := newHs.flags + {Error, ErrorLock});
    }
  }

  /** Adding immediate or error flags, or changing the immediate or the length, leaves the other parts. */
  lemma SameParts(hs: Record, hs': Record, more: set<Flag>)
    requires hs' == hs.(imm := hs'.imm, len := hs'.len, flags := hs.flags + more)
    requires more <= {Imm8, Imm16, Imm32, Imm64, Relative, Error, ErrorLength} && DispSize(hs.flags) <= |hs.disp|
    ensures RexBytes(hs') == RexBytes(hs) && OpcodeBytes(hs') == OpcodeBytes(hs)
    ensures DispSize(hs'.flags) == DispSize(hs.flags) && ModrmBytes(hs') == ModrmBytes(hs)
  {
  }

  /** The opcode part: REX and opcode bytes, unless the second of two REX bytes got lost. */
  ghost predicate HeadRead(hs: Record, code: seq<Byte>, n: nat, p: nat, doubleRex: bool) {
    && n <= p <= |code| && p == n + |RexBytes(hs)| + |OpcodeBytes(hs)|
    && (!doubleRex ==> code[n..p] == RexBytes(hs) + OpcodeBytes(hs))
  }

  lemma HeadJoin(rexed: Record, hs: Record, code: seq<Byte>, n: nat, p: nat, q: nat, doubleRex: bool)
    requires n <= p < q <= |code| && hs == rexed.(opcode := hs.opcode, opcode2 := hs.opcode2)
    requires p == n + |RexBytes(rexed)| && code[n..p] == RexBytes(rexed)
    requires if doubleRex then hs.opcode == 0 && q == p + 1 else code[p..q] == OpcodeBytes(hs)
    ensures HeadRead(hs, code, n, q, doubleRex)
  {
    assert code[n..q] == code[n..p] + code[p..q];
  }

  /** How a record relates to the `raw` bytes it was read from, of which the first `n` are prefixes. */
  ghost predicate Describes(hs: Record, code: seq<Byte>, n: nat, raw: nat, doubleRex: bool) {
    && n < raw <= 28 <= |code| && |hs.imm| == 8 && |hs.disp| == 4 && DispSize(hs.flags) <= 4 && ImmSize(hs.flags) <= 8
    && raw == n + |RexBytes(hs)| + |OpcodeBytes(hs)| + |ModrmBytes(hs)| + ImmSize(hs.flags)
    && (if doubleRex then hs.opcode == 0 && raw == n + 2
        else code[n..raw - ImmSize(hs.flags)] == RexBytes(hs) + OpcodeBytes(hs) + ModrmBytes(hs))
    && (if Enter(hs) then hs.opcode == 0xc8 && !doubleRex && hs.imm[0] == code[raw - 1] && hs.imm[1] == code[raw - 2]
        else code[raw - ImmSize(hs.flags)..raw] == ImmBytes(hs))
  }

  lemma DescribesMore(hs: Record, hs': Record, code: seq<Byte>, n: nat, raw: nat, doubleRex: bool, more: set<Flag>)
    requires Describes(hs, code, n, raw, doubleRex) && more <= {Error, ErrorLength}
    requires hs' == hs.(len := hs'.len, flags := hs.flags + more)
    ensures Describes(hs', code, n, raw, doubleRex)
  {
    hide RexBytes, OpcodeBytes, ModrmBytes;
    SameParts(hs, hs', more);
  }

  /** One immediate after the operands completes the description. */
  lemma DescribesImm(hs: Record, code: seq<Byte>, n: nat, p: nat, q: nat, doubleRex: bool, cflags: Byte, p66: bool, op64: bool)
    requires 32 <= |code| && HeadRead(hs, code, n, p, doubleRex) && p < q + 1
    requires |hs.imm| == 8 && |hs.disp| == 4 && DispSize(hs.flags) <= 4 && ImmSize(hs.flags) == 0
    requires q == p + |ModrmBytes(hs)| && q + ImmLength(cflags, p66, op64) <= 28 && code[p..q] == ModrmBytes(hs)
    requires cflags != 0x06 && (doubleRex ==> hs.opcode == 0 && q == n + 2 && ImmLength(cflags, p66, op64) == 0)
    ensures Describes(TakeImm(hs, code, q, ImmLength(cflags, p66, op64), ImmFlags(cflags, p66, op64)),
                      code, n, q + ImmLength(cflags, p66, op64), doubleRex)
    ensures ElseZero(hs) ==> ElseZero(TakeImm(hs, code, q, ImmLength(cflags, p66, op64), ImmFlags(cflags, p66, op64)))
  {
    hide RexBytes, OpcodeBytes, ModrmBytes;
    var size, flags := ImmLength(cflags, p66, op64), ImmFlags(cflags, p66, op64);
    var hs' := TakeImm(hs, code, q, size, flags);
    ImmFlagsSize(hs.flags, cflags, p66, op64);
    SameParts(hs, hs', flags);
    if !doubleRex {
      assert code[n..q] == code[n..p] + code[p..q];
    }
  }

  /** ENTER: the second immediate overwrites the low byte of the first. */
  lemma DescribesEnter(hs: Record, code: seq<Byte>, n: nat, p: nat)
    requires 32 <= |code| && HeadRead(hs, code, n, p, false) && p <= 18 && hs.opcode == 0xc8
    requires |hs.imm| == 8 && |hs.disp| == 4 && DispSize(hs.flags) <= 4 && ImmSize(hs.flags) == 0 && ModrmBytes(hs) == []
    ensures Describes(TakeImm(TakeImm(hs, code, p, 2, {Imm16}), code, p + 2, 1, {Imm8}), code, n, p + 3, false)
    ensures ElseZero(hs) ==> ElseZero(TakeImm(TakeImm(hs, code, p, 2, {Imm16}), code, p + 2, 1, {Imm8}))
  {
    hide RexBytes, OpcodeBytes, ModrmBytes;
    var hs1 := TakeImm(hs, code, p, 2, {Imm16});
    var hs2 := TakeImm(hs1, code, p + 2, 1, {Imm8});
    SameParts(hs, hs1, {Imm16});
    SameParts(hs1, hs2, {Imm8});
    assert hs1.imm == code[p..p + 2] + hs.imm[2..];
    assert hs2.imm == code[p + 2..p + 3] + hs1.imm[1..];
    assert hs2.flags == hs.flags + {Imm16, Imm8};
    assert ImmSize(hs2.flags) == 3;
    assert hs2.imm[1] == hs1.imm[1] == code[p + 1];
    if ElseZero(hs) {
      OverlayZero(hs.imm, code[p..p + 2], 0);
      OverlayZero(hs1.imm, code[p + 2..p + 3], 2);
    }
  }

  /** The operand stage changes none of the flags of the other stages. */
  lemma OperandFlags(was: set<Flag>, flags: set<Flag>)
    requires was <= flags
    requires flags - was <= {Modrm, Sib, Disp8, Disp16, Disp32, Error, ErrorOpcode, ErrorLock, ErrorOperand}
    ensures PrefixRex in flags <==> PrefixRex in was
    ensures ErrorLength in flags <==> ErrorLength in was
    ensures ImmSize(flags) == ImmSize(was)
  {
    assert forall f :: f in flags && f !in was ==> f in flags - was;
  }

  lemma WideOpcode(op: Byte)
    requires 0xa0 <= op <= 0xa3 || 0xb8 <= op <= 0xbf
    ensures Cflags(0, op) == 0x10
  {
    hide Cflags, Entry, GroupMask;
    OneByteTable(op);
  }

  lemma SameHead(hs: Record, hs': Record, c: Byte)
    requires hs'.opcode == hs.opcode && hs'.opcode2 == hs.opcode2
    requires hs'.rexW == hs.rexW && hs'.rexR == hs.rexR && hs'.rexX == hs.rexX && hs'.rexB == hs.rexB
    requires PrefixRex in hs.flags <==> PrefixRex in hs'.flags
    ensures RexBytes(hs') == RexBytes(hs) && OpcodeBytes(hs') == OpcodeBytes(hs)
    ensures OpOf(hs') == OpOf(hs) && BaseOf(hs') == BaseOf(hs) && (Wide(hs') <==> Wide(hs)) && (RexSplit(hs', c) <==> RexSplit(hs, c))
  {
  }

  lemma DescribesRange(hs: Record, code: seq<Byte>, n: nat, raw: nat, doubleRex: bool)
    requires Describes(hs, code, n, raw, doubleRex)
    ensures n < raw <= 28 <= |code|
  {
  }

  /** The length is the sum of the parts that the flags announce. */
  lemma LengthFromFlags(hs: Record, code: seq<Byte>, n: nat, raw: nat, doubleRex: bool)
    requires Describes(hs, code, n, raw, doubleRex)
    ensures raw == FlagLength(hs, n)
  {
  }

  /** The flags that the opcode, the operands and the immediate call for. */
  ghost function FlagsOf(hs: Record, pref: Pref, doubleRex: bool): (r: set<Flag>) {
    OperandFlagsOf(hs, OpOf(hs), BaseOf(hs), OpcodePref(hs, pref), doubleRex)
    + if doubleRex then {} else ImmFlags(FinalCflags(hs, OpOf(hs), BaseOf(hs)), OpcodePref(hs, pref).p66, Wide(hs))
  }

  /** The fields of ModRM and SIB are the bit fields of those bytes. */
  predicate FieldsSplit(hs: Record) {
    && (Modrm in hs.flags ==> hs.mod == hs.modrm / 64 && hs.reg == hs.modrm % 64 / 8 && hs.rm == hs.modrm % 8)
    && (Sib in hs.flags ==> hs.scale == hs.sib / 64 && hs.index == hs.sib % 64 / 8 && hs.base == hs.sib % 8)
  }

  /** Of two REX bytes, the second is an unknown opcode, whatever it is. */
  lemma DoubleRexFlags(hs: Record, op: Byte, pref: Pref)
    ensures OperandFlagsOf(hs, op, 0, pref, true) == {Error, ErrorOpcode} + if pref.lock then {Error, ErrorLock} else {}
  {
  }

  /** Nothing is recorded yet. */
  ghost predicate Fresh(hs: Record) {
    && NoOperandFlags(hs.flags) && PrefixRex !in hs.flags && ErrorLength !in hs.flags
    && hs == BLANK.(prefixes := hs.prefixes, flags := hs.flags)
  }

  /** REX and opcode; a second REX goes straight to the opcode error. */
  method ReadStart(code: seq<Byte>, p0: nat, c: Byte, pref0: Pref, hs0: Record)
    returns (p: nat, hs: Record, op: Byte, base: nat, pref: Pref, op64: bool, doubleRex: bool)
    requires 32 <= |code| && 1 <= p0 <= 16 && c == code[p0 - 1] && Fresh(hs0)
    ensures doubleRex <==> c / 16 == 4 && code[p0] / 16 == 4
    ensures doubleRex ==> p == p0 + 1 && hs.opcode == hs.opcode2 == 0 && op / 16 == 4
    ensures HeadRead(hs, code, p0 - 1, p, doubleRex) && p <= 18
    ensures base == BaseOf(hs) && pref == OpcodePref(hs, pref0) && (op64 <==> !doubleRex && Wide(hs)) && (!doubleRex ==> op == OpOf(hs))
    ensures hs.flags == hs0.flags + if c / 16 == 4 then {PrefixRex} else {}
    ensures hs == hs0.(flags := hs.flags, rexW := hs.rexW, rexR := hs.rexR, rexX := hs.rexX, rexB := hs.rexB,
                       opcode := hs.opcode, opcode2 := hs.opcode2)
    ensures RexSplit(hs, c) && (hs.opcode != 0x0f ==> hs.opcode2 == 0)
  {
    hide RexBytes, OpcodeBytes, HeadRead;
    p, hs, op, op64 := ReadRex(code, p0, c, hs0);
    ghost var p1, rexed := p, hs;
    pref, base, doubleRex := pref0, 0, c / 16 == 4 && op / 16 == 4;
    if !doubleRex {
      p, hs, op, base, pref, op64 := ReadOpcode(code, p, op, pref, op64, hs);
    }
    HeadJoin(rexed, hs, code, p0 - 1, p1 - 1, p, doubleRex);
  }

  lemma StartZero(hs: Record)
    requires hs.modrm == 0 && hs.mod == hs.reg == hs.rm == 0 && hs.sib == 0 && hs.scale == hs.index == hs.base == 0 && hs.disp == BLANK.disp
    ensures OperandsElseZero(hs)
  {
  }

  lemma HeadZero(hs: Record)
    requires (hs.opcode != 0x0f ==> hs.opcode2 == 0) && OperandsElseZero(hs) && hs.imm == BLANK.imm
    ensures ElseZero(hs)
  {
  }

  /** Opcode and operands, up to the immediate. */
  method ReadHead(code: seq<Byte>, p0: nat, c: Byte, pref0: Pref, hs0: Record)
    returns (p: nat, hs: Record, cflags: Byte, p66: bool, op64: bool, ghost mid: nat, ghost doubleRex: bool)
    requires 32 <= |code| && 1 <= p0 <= 16 && c == code[p0 - 1] && Fresh(hs0)
    ensures doubleRex <==> c / 16 == 4 && code[p0] / 16 == 4
    ensures HeadRead(hs, code, p0 - 1, mid, doubleRex) && mid <= 18 && mid <= p <= mid + 6
    ensures |hs.imm| == 8 && |hs.disp| == 4 && DispSize(hs.flags) <= 4 && ImmSize(hs.flags) == 0
    ensures p == mid + |ModrmBytes(hs)| && code[mid..p] == ModrmBytes(hs)
    ensures cflags in KNOWN_CFLAGS && p + ImmLength(cflags, p66, op64) <= 28
    ensures cflags == 0x06 ==> p == mid && hs.opcode == 0xc8 && !doubleRex
    ensures doubleRex ==> hs.opcode == 0 && p == p0 + 1
    ensures cflags == if doubleRex then 0 else FinalCflags(hs, OpOf(hs), BaseOf(hs))
    ensures p66 == OpcodePref(hs, pref0).p66 && (op64 <==> !doubleRex && Wide(hs))
    ensures hs.flags == hs0.flags + (if c / 16 == 4 then {PrefixRex} else {})
                        + OperandFlagsOf(hs, OpOf(hs), BaseOf(hs), OpcodePref(hs, pref0), doubleRex)
    ensures hs.prefixes == hs0.prefixes && FieldsSplit(hs) && RexSplit(hs, c) && ElseZero(hs)
  {
    hide Cflags, RexBytes, OpcodeBytes, ModrmBytes, AdjustCflags, FinalCflags, ImmFlags, Has, OperandFlagsOf;
    hide RexSplit, ElseZero, OperandsElseZero, FieldsSplit;
    var op, base, pref, twoRex;
    p, hs, op, base, pref, op64, twoRex := ReadStart(code, p0, c, pref0, hs0);
    mid, doubleRex, p66 := p, twoRex, pref.p66;
    ghost var hs1 := hs;
    StartZero(hs);
    p, hs, cflags := ReadOperands(code, p, op, base, pref, twoRex, hs);
    OperandFlags(hs1.flags, hs.flags);
    SameHead(hs1, hs, c);
    HeadZero(hs);
    if op64 { WideOpcode(op); }
    if twoRex {
      DoubleRexFlags(hs, op, pref);
      DoubleRexFlags(hs, 0, pref);
    }
  }

  /** Everything after the prefixes. */
  method ReadBody(code: seq<Byte>, p0: nat, c: Byte, pref: Pref, hs0: Record) returns (p: nat, hs: Record, ghost doubleRex: bool)
    requires 32 <= |code| && 1 <= p0 <= 16 && c == code[p0 - 1] && Fresh(hs0)
    ensures Describes(hs, code, p0 - 1, p, doubleRex) && (doubleRex <==> c / 16 == 4 && code[p0] / 16 == 4)
    ensures hs.flags == hs0.flags + (if c / 16 == 4 then {PrefixRex} else {}) + FlagsOf(hs, pref, doubleRex)
    ensures hs.prefixes == hs0.prefixes && FieldsSplit(hs) && RexSplit(hs, c) && ElseZero(hs)
  {
    hide RexBytes, OpcodeBytes, ModrmBytes, Describes, ElseZero, ImmFlags, Has, HeadRead, OperandFlagsOf, FinalCflags;
    var cflags, p66, op64;
    ghost var mid;
    p, hs, cflags, p66, op64, mid, doubleRex := ReadHead(code, p0, c, pref, hs0);
    ImmFlagsSize(hs.flags, cflags, p66, op64);
    ghost var q, hs1 := p, hs;
    p, hs := ReadImmediate(code, p, cflags, p66, op64, hs);
    if cflags == 0x06 {
      DescribesEnter(hs1, code, p0 - 1, mid);
    } else {
      DescribesImm(hs1, code, p0 - 1, mid, q, doubleRex, cflags, p66, op64);
    }
    SameOperands(hs1, hs, pref, doubleRex);
  }

  /** The immediate does not change what the other parts call for. */
  lemma SameOperands(hs: Record, hs': Record, pref: Pref, doubleRex: bool)
    requires hs' == hs.(len := hs'.len, imm := hs'.imm, flags := hs'.flags)
    ensures OpOf(hs') == OpOf(hs) && BaseOf(hs') == BaseOf(hs) && OpcodePref(hs', pref) == OpcodePref(hs, pref)
    ensures OperandFlagsOf(hs', OpOf(hs), BaseOf(hs), OpcodePref(hs, pref), doubleRex)
         == OperandFlagsOf(hs, OpOf(hs), BaseOf(hs), OpcodePref(hs, pref), doubleRex)
    ensures FinalCflags(hs', OpOf(hs), BaseOf(hs)) == FinalCflags(hs, OpOf(hs), BaseOf(hs))
  {
    hide Cflags, AdjustCflags, LookupErrors, ModrmErrors, MemoryFlags, EffectiveMod, GroupMask;
  }

  /** The prefixes that guide decoding. */
  function SeenPref(code: seq<Byte>): (pref: Pref)
    requires 16 <= |code|
  {
    var pref := PrefOf(code, Leading(code, 0));
    pref.(none := PrefixFlags(pref) == {})
  }

  lemma SeenPrefFlags(code: seq<Byte>)
    requires 16 <= |code|
    ensures var pref := PrefOf(code, Leading(code, 0));
      && PrefixFlags(SeenPref(code)) == PrefixFlags(pref)
      && SeenPref(code) == if PrefixFlags(pref) == {} then pref.(none := true) else pref
  {
  }

  /** What makes `hs` the record of the instruction at the start of `code`, which takes `raw` bytes: its parts
      are the bytes read and 0 elsewhere, and its flags are those that prefixes, table and operands call for. */
  ghost predicate Decodes(code: seq<Byte>, hs: Record, raw: nat)
    requires 32 <= |code|
  {
    var n := PrefixCount(code);
    && Describes(hs, code, n, raw, DoubleRex(code)) && RexSplit(hs, code[n]) && FieldsSplit(hs) && ElseZero(hs)
    && hs.len == (if raw <= 15 then raw else 15)
    && hs.prefixes == PrefixBytesOf(code, Leading(code, 0))
    && hs.flags == PrefixFlags(SeenPref(code)) + (if code[n] / 16 == 4 then {PrefixRex} else {})
                   + FlagsOf(hs, SeenPref(code), DoubleRex(code)) + (if raw <= 15 then {} else {Error, ErrorLength})
  }

  /** hde64_disasm. The bytes passed over are those that the flags announce. */
  method Disasm(code: seq<Byte>) returns (hs: Record)
    requires 32 <= |code|
    ensures Decodes(code, hs, FlagLength(hs, PrefixCount(code)))
  {
    hide Describes, PrefOf, PrefixBytesOf, FlagsOf, PrefixFlags, FlagLength, SeenPref, Leading, ElseZero;
    SeenPrefFlags(code);
    var p, c, pref, kept := ReadPrefixes(code);
    hs := BLANK.(prefixes := kept, flags := PrefixFlags(pref));
    if PrefixFlags(pref) == {} { pref := pref.(none := true); }
    ghost var twoRex;
    p, hs, twoRex := ReadBody(code, p, c, pref, hs);
    ghost var raw := p;
    DescribesRange(hs, code, PrefixCount(code), raw, twoRex);
    ghost var hs1 := hs;
    hs := hs.(len := p);
    if hs.len > 15 {
      hs := hs.(len := 15, flags := hs.flags + {Error, ErrorLength});
    }
    DescribesMore(hs1, hs, code, PrefixCount(code), raw, twoRex, if raw <= 15 then {} else {Error, ErrorLength});
    FlagsKept(hs1, hs, pref, twoRex);
    ZeroKept(hs1, hs, if raw <= 15 then {} else {Error, ErrorLength});
    LengthFromFlags(hs, code, PrefixCount(code), raw, twoRex);
  }

  /** The length error changes none of the flags that the bytes call for, and none of those is a length error. */
  lemma FlagsKept(hs: Record, hs': Record, pref: Pref, doubleRex: bool)
    requires hs' == hs.(len := hs'.len, flags := hs'.flags)
    ensures FlagsOf(hs', pref, doubleRex) == FlagsOf(hs, pref, doubleRex)
    ensures ErrorLength !in FlagsOf(hs, pref, doubleRex)
  {
    hide Cflags, AdjustCflags, LookupErrors, ModrmErrors, MemoryFlags, EffectiveMod, GroupMask, FinalCflags;
    SameOperands(hs, hs', pref, doubleRex);
  }

  lemma ZeroKept(hs: Record, hs': Record, more: set<Flag>)
    requires hs' == hs.(len := hs'.len, flags := hs.flags + more) && more <= {Error, ErrorLength} && ElseZero(hs)
    ensures ElseZero(hs')
  {
  }
}
