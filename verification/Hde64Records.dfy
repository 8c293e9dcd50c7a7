/** What the records of hde64.c tell about instructions: each instruction has one record, and which records
    have one instruction. */
module Hde64Records {
  import opened Hde64Table
  import opened Hde64

  /** The flags that the opcode and its operands set. */
  const OPERAND_FLAGS: set<Flag> :=
    {Modrm, Sib, Imm8, Imm16, Imm32, Imm64, Disp8, Disp16, Disp32, Relative, ErrorOpcode, ErrorLock, ErrorOperand}

  lemma FlagsOfRange(hs: Record, pref: Pref, doubleRex: bool)
    ensures FlagsOf(hs, pref, doubleRex) <= OPERAND_FLAGS + {Error}
  {
    hide Cflags, FinalCflags, LookupErrors, ModrmErrors, MemoryFlags, EffectiveMod, GroupMask;
  }

  /** Each flag has one source. */
  lemma FlagSources(code: seq<Byte>, hs: Record, raw: nat)
    requires 32 <= |code| && Decodes(code, hs, raw)
    ensures forall f :: f in OPERAND_FLAGS ==> (f in hs.flags <==> f in FlagsOf(hs, SeenPref(code), DoubleRex(code)))
    ensures PrefixRex in hs.flags <==> code[PrefixCount(code)] / 16 == 4
    ensures PrefixLock in hs.flags <==> SeenPref(code).lock
    ensures ErrorLength in hs.flags <==> 15 < raw
    ensures Error in hs.flags <==> Error in FlagsOf(hs, SeenPref(code), DoubleRex(code)) || 15 < raw
  {
    hide FlagsOf, SeenPref, PrefixBytesOf, Describes, ElseZero, Leading, PrefixFlags, DoubleRex, FieldsSplit, RexSplit;
    FlagsOfRange(hs, SeenPref(code), DoubleRex(code));
    LockFlag(SeenPref(code));
    FlagUnion(PrefixFlags(SeenPref(code)), code[PrefixCount(code)] / 16 == 4, FlagsOf(hs, SeenPref(code), DoubleRex(code)), 15 < raw);
  }

  lemma LockFlag(pref: Pref)
    ensures PrefixLock in PrefixFlags(pref) <==> pref.lock
  {
  }

  lemma FlagUnion(prefixes: set<Flag>, rex: bool, core: set<Flag>, long: bool)
    requires prefixes <= {PrefixRepnz, PrefixRepx, Prefix66, Prefix67, PrefixLock, PrefixSeg} && core <= OPERAND_FLAGS + {Error}
    ensures var flags := prefixes + (if rex then {PrefixRex} else {}) + core + (if long then {Error, ErrorLength} else {});
      && (forall f :: f in OPERAND_FLAGS ==> (f in flags <==> f in core))
      && (PrefixRex in flags <==> rex) && (PrefixLock in flags <==> PrefixLock in prefixes)
      && (ErrorLength in flags <==> long) && (Error in flags <==> Error in core || long)
  {
  }

  // ----- an instruction has one record

  /** Where the opcode stands. */
  lemma OpcodeAt(hs: Record, code: seq<Byte>, n: nat, raw: nat)
    requires Describes(hs, code, n, raw, false)
    ensures var p := n + |RexBytes(hs)|;
      && p + |OpcodeBytes(hs)| <= raw - ImmSize(hs.flags) && code[p] == hs.opcode
      && (hs.opcode == 0x0f ==> code[p + 1] == hs.opcode2)
      && code[p + |OpcodeBytes(hs)|..raw - ImmSize(hs.flags)] == ModrmBytes(hs)
  {
    hide RexBytes, ModrmBytes;
    var p, q := n + |RexBytes(hs)|, raw - ImmSize(hs.flags);
    var whole := RexBytes(hs) + OpcodeBytes(hs) + ModrmBytes(hs);
    assert code[p] == code[n..q][p - n] == whole[p - n];
    if hs.opcode == 0x0f { assert code[p + 1] == code[n..q][p + 1 - n] == whole[p + 1 - n]; }
    assert code[p + |OpcodeBytes(hs)|..q] == code[n..q][p + |OpcodeBytes(hs)| - n..];
  }

  /** Where ModRM, SIB and displacement stand. */
  lemma OperandsAt(hs: Record, code: seq<Byte>, p: nat, q: nat)
    requires p <= q <= |code| && DispSize(hs.flags) <= |hs.disp| && code[p..q] == ModrmBytes(hs) && (Sib in hs.flags ==> Modrm in hs.flags)
    ensures Modrm in hs.flags ==> p < q && code[p] == hs.modrm
    ensures Sib in hs.flags ==> p + 1 < q && code[p + 1] == hs.sib
    ensures q - DispSize(hs.flags) >= p && code[q - DispSize(hs.flags)..q] == hs.disp[..DispSize(hs.flags)]
  {
    var m := ModrmBytes(hs);
    assert |m| == q - p;
    assert code[q - DispSize(hs.flags)..q] == code[p..q][|m| - DispSize(hs.flags)..];
    if Modrm in hs.flags { assert code[p] == code[p..q][0]; }
    if Sib in hs.flags { assert code[p + 1] == code[p..q][1]; }
  }

  /** A byte sequence that is 0 from `k` on is known by its first `k` bytes. */
  lemma KnownByPrefix(a: seq<Byte>, b: seq<Byte>, k: nat)
    requires |a| == |b| && k <= |a| && a[..k] == b[..k] && ZeroFrom(a, k) && ZeroFrom(b, k)
    ensures a == b
  {
    forall i | 0 <= i < |a|
      ensures a[i] == b[i]
    {
      if i < k { assert a[i] == a[..k][i]; }
    }
  }

  /** The flags that decide which operands there are. */
  lemma OperandKinds(hs: Record, pref: Pref, doubleRex: bool)
    ensures var flags := FlagsOf(hs, pref, doubleRex);
      && (Modrm in flags <==> !doubleRex && Cflags(BaseOf(hs), OpOf(hs)) % 2 == 1)
      && (Sib in flags <==> Modrm in flags && EffectiveMod(hs.opcode2 != 0, OpOf(hs), hs.mod) != 3 && hs.rm == 4)
  {
    hide Cflags, FinalCflags, LookupErrors, ModrmErrors, EffectiveMod, GroupMask, DispLength;
  }

  /** REX and opcode are the same in any two records of an instruction. */
  lemma SameOpcode(code: seq<Byte>, a: Record, rawA: nat, b: Record, rawB: nat)
    requires 32 <= |code| && Decodes(code, a, rawA) && Decodes(code, b, rawB)
    ensures a.rexW == b.rexW && a.rexR == b.rexR && a.rexX == b.rexX && a.rexB == b.rexB
    ensures a.opcode == b.opcode && a.opcode2 == b.opcode2
    ensures |RexBytes(a)| == |RexBytes(b)|
  {
    hide FlagsOf, SeenPref, PrefixBytesOf, Leading, ModrmBytes, PrefixFlags;
    FlagSources(code, a, rawA);
    FlagSources(code, b, rawB);
    if !DoubleRex(code) {
      OpcodeAt(a, code, PrefixCount(code), rawA);
      OpcodeAt(b, code, PrefixCount(code), rawB);
    }
  }

  /** So are ModRM and SIB. */
  lemma SameOperandFields(code: seq<Byte>, a: Record, rawA: nat, b: Record, rawB: nat)
    requires 32 <= |code| && Decodes(code, a, rawA) && Decodes(code, b, rawB)
    ensures a.modrm == b.modrm && a.mod == b.mod && a.reg == b.reg && a.rm == b.rm
    ensures a.sib == b.sib && a.scale == b.scale && a.index == b.index && a.base == b.base
  {
    hide FlagsOf, SeenPref, PrefixBytesOf, Leading, PrefixFlags, Cflags, EffectiveMod, RexBytes, ModrmBytes, Describes;
    ReadOperandBytes(code, a, rawA);
    ReadOperandBytes(code, b, rawB);
    SameOpcode(code, a, rawA, b, rawB);
  }

  /** ModRM and SIB of a record are bytes at known places, present under known conditions. */
  lemma ReadOperandBytes(code: seq<Byte>, hs: Record, raw: nat)
    requires 32 <= |code| && Decodes(code, hs, raw)
    ensures Modrm in hs.flags <==> !DoubleRex(code) && Cflags(BaseOf(hs), OpOf(hs)) % 2 == 1
    ensures Sib in hs.flags <==> Modrm in hs.flags && EffectiveMod(hs.opcode2 != 0, OpOf(hs), hs.mod) != 3 && hs.rm == 4
    ensures var p := PrefixCount(code) + |RexBytes(hs)| + |OpcodeBytes(hs)|;
      && p + 1 < |code| && (Modrm in hs.flags ==> code[p] == hs.modrm) && (Sib in hs.flags ==> code[p + 1] == hs.sib)
  {
    hide FlagsOf, SeenPref, PrefixBytesOf, Leading, PrefixFlags, Cflags, EffectiveMod, RexBytes, ModrmBytes;
    FlagSources(code, hs, raw);
    OperandKinds(hs, SeenPref(code), DoubleRex(code));
    if !DoubleRex(code) {
      OpcodeAt(hs, code, PrefixCount(code), raw);
      OperandsAt(hs, code, PrefixCount(code) + |RexBytes(hs)| + |OpcodeBytes(hs)|, raw - ImmSize(hs.flags));
    }
  }

  /** So are the flags, and with them the length. */
  lemma SameFlags(code: seq<Byte>, a: Record, rawA: nat, b: Record, rawB: nat)
    requires 32 <= |code| && Decodes(code, a, rawA) && Decodes(code, b, rawB)
    ensures rawA == rawB && a.flags == b.flags
  {
    hide SeenPref, PrefixBytesOf, Leading, PrefixFlags, Cflags, EffectiveMod, FlagsOf, ElseZero, FieldsSplit;
    hide DoubleRex, RexSplit, PrefixCount, Describes, RexBytes;
    SameOpcode(code, a, rawA, b, rawB);
    SameOperandFields(code, a, rawA, b, rawB);
    SameDemand(a, b, SeenPref(code), DoubleRex(code));
    FlagSources(code, a, rawA);
    FlagSources(code, b, rawB);
    assert forall f :: f in OPERAND_FLAGS ==> (f in a.flags <==> f in b.flags);
    LengthFromFlags(a, code, PrefixCount(code), rawA, DoubleRex(code));
    LengthFromFlags(b, code, PrefixCount(code), rawB, DoubleRex(code));
  }

  /** The flags called for depend on the fields read only. */
  lemma SameDemand(a: Record, b: Record, pref: Pref, doubleRex: bool)
    requires a.rexW == b.rexW && a.opcode == b.opcode && a.opcode2 == b.opcode2
    requires a.modrm == b.modrm && a.mod == b.mod && a.reg == b.reg && a.rm == b.rm && a.sib == b.sib
    ensures FlagsOf(a, pref, doubleRex) == FlagsOf(b, pref, doubleRex)
  {
    hide Cflags, AdjustCflags, LookupErrors, ModrmErrors, MemoryFlags, EffectiveMod, GroupMask, ImmFlags;
  }

  /** Displacement and immediate follow. */
  lemma SameTail(code: seq<Byte>, a: Record, b: Record, raw: nat)
    requires 32 <= |code| && Decodes(code, a, raw) && Decodes(code, b, raw) && a.flags == b.flags
    requires |RexBytes(a)| == |RexBytes(b)| && a.opcode == b.opcode
    ensures a.disp == b.disp && a.imm == b.imm
  {
    hide SeenPref, PrefixBytesOf, Leading, PrefixFlags, FlagsOf, FieldsSplit, RexBytes, ModrmBytes;
    hide DoubleRex, RexSplit, DispSize, ImmSize, PrefixCount, ZeroFrom;
    ReadDisplacement(code, a, raw);
    ReadDisplacement(code, b, raw);
    KnownByPrefix(a.disp, b.disp, DispSize(a.flags));
    KnownByPrefix(a.imm, b.imm, if Enter(a) then 2 else ImmSize(a.flags));
  }

  lemma ReadDisplacement(code: seq<Byte>, hs: Record, raw: nat)
    requires 32 <= |code| && Decodes(code, hs, raw)
    ensures var q := raw - ImmSize(hs.flags);
      && 0 <= q - DispSize(hs.flags) <= q <= |code| && |hs.disp| == 4 && DispSize(hs.flags) <= 4
      && code[q - DispSize(hs.flags)..q] == hs.disp[..DispSize(hs.flags)]
  {
    hide SeenPref, PrefixBytesOf, Leading, PrefixFlags, FlagsOf, FieldsSplit, RexBytes, ModrmBytes;
    hide DoubleRex, RexSplit, ElseZero, Cflags, EffectiveMod, DispSize, ImmSize, PrefixCount, OpcodeBytes;
    ReadOperandBytes(code, hs, raw);
    if DoubleRex(code) {
      NoOperands(code, hs, raw);
    } else {
      OpcodeAt(hs, code, PrefixCount(code), raw);
      OperandsAt(hs, code, PrefixCount(code) + |RexBytes(hs)| + |OpcodeBytes(hs)|, raw - ImmSize(hs.flags));
    }
  }

  /** After a double REX there are no operands. */
  lemma NoOperands(code: seq<Byte>, hs: Record, raw: nat)
    requires 32 <= |code| && Decodes(code, hs, raw) && DoubleRex(code)
    ensures DispSize(hs.flags) == ImmSize(hs.flags) == 0 && hs.flags !! {Modrm, Sib, Relative}
  {
    hide SeenPref, PrefixBytesOf, Leading, PrefixFlags, Describes, ElseZero, FieldsSplit;
    FlagSources(code, hs, raw);
    DoubleRexFlags(hs, OpOf(hs), OpcodePref(hs, SeenPref(code)));
  }

  /** An instruction has exactly one record and one length. */
  lemma RecordUnique(code: seq<Byte>, a: Record, rawA: nat, b: Record, rawB: nat)
    requires 32 <= |code| && Decodes(code, a, rawA) && Decodes(code, b, rawB)
    ensures a == b && rawA == rawB
  {
    hide SeenPref, PrefixBytesOf, Leading, PrefixFlags, FlagsOf, FieldsSplit, ElseZero, Describes;
    SameOpcode(code, a, rawA, b, rawB);
    SameOperandFields(code, a, rawA, b, rawB);
    SameFlags(code, a, rawA, b, rawB);
    SameTail(code, a, b, rawA);
  }

  // ----- flags that go together

  predicate AtMostOne(a: bool, b: bool, c: bool) {
    !(a && b) && !(a && c) && !(b && c)
  }

  /** What can be relied on about a set of operand flags. */
  predicate Consistent(flags: set<Flag>) {
    && (Sib in flags || Disp8 in flags || Disp16 in flags || Disp32 in flags || ErrorOperand in flags ==> Modrm in flags)
    && AtMostOne(Disp8 in flags, Disp16 in flags, Disp32 in flags)
    && (Imm32 in flags || Imm64 in flags ==> Imm8 !in flags && Imm16 !in flags && !(Imm32 in flags && Imm64 in flags))
    && (Imm8 in flags && Imm16 in flags ==> Modrm !in flags && Relative !in flags)
    && (Relative in flags ==> Imm64 !in flags && (Imm8 in flags || Imm16 in flags || Imm32 in flags))
  }

  lemma DemandConsistent(hs: Record, pref: Pref, doubleRex: bool)
    ensures var flags := FlagsOf(hs, pref, doubleRex);
      && Consistent(flags)
      && (Error in flags <==> ErrorOpcode in flags || ErrorLock in flags || ErrorOperand in flags)
      && (ErrorLock in flags ==> pref.lock)
      && (Imm8 in flags && Imm16 in flags <==> !doubleRex && hs.opcode == 0xc8)
  {
    hide OperandFlagsOf, ImmFlags, FinalCflags, Cflags;
    var op, base, opPref := OpOf(hs), BaseOf(hs), OpcodePref(hs, pref);
    if !doubleRex {
      EnterOnly(hs);
      ImmediateKinds(FinalCflags(hs, op, base), opPref.p66, Wide(hs));
    }
    OperandsConsistent(hs, op, base, opPref, doubleRex);
  }

  lemma OperandsConsistent(hs: Record, op: Byte, base: nat, pref: Pref, doubleRex: bool)
    requires base == 0 || base == DELTA_OPCODES
    ensures var flags := OperandFlagsOf(hs, op, base, pref, doubleRex);
      && flags !! {Imm8, Imm16, Imm32, Imm64, Relative}
      && (Sib in flags || Disp8 in flags || Disp16 in flags || Disp32 in flags || ErrorOperand in flags ==> Modrm in flags)
      && AtMostOne(Disp8 in flags, Disp16 in flags, Disp32 in flags)
      && (Error in flags <==> ErrorOpcode in flags || ErrorLock in flags || ErrorOperand in flags)
      && (ErrorLock in flags ==> pref.lock)
      && (Modrm in flags <==> !doubleRex && Cflags(base, op) % 2 == 1)
  {
    hide Cflags, GroupMask, Entry, PrefixesForbidden, ModrmErrors, EffectiveMod, MemoryFlags;
    ErrorKinds(hs.opcode2 != 0, op, GroupMask(base, op), pref, hs.modrm);
    DisplacementKinds(EffectiveMod(hs.opcode2 != 0, op, hs.mod), hs.rm, pref.p67, hs.sib);
  }

  lemma ErrorKinds(twoByte: bool, op: Byte, x: Byte, pref: Pref, modrm: Byte)
    ensures var flags := ModrmErrors(twoByte, op, x, pref, modrm);
      && (Error in flags <==> ErrorOpcode in flags || ErrorLock in flags || ErrorOperand in flags)
      && (ErrorLock in flags ==> pref.lock)
  {
    hide ShiftsToTop, FpuForbids, LockBad, OperandBad;
  }

  lemma DisplacementKinds(mod: nat, rm: nat, p67: bool, sib: Byte)
    ensures var flags := MemoryFlags(mod, rm, p67, sib); AtMostOne(Disp8 in flags, Disp16 in flags, Disp32 in flags)
  {
    hide DispLength;
  }

  lemma ImmediateKinds(cflags: Byte, p66: bool, op64: bool)
    ensures var flags := ImmFlags(cflags, p66, op64);
      && flags <= {Imm8, Imm16, Imm32, Imm64, Relative}
      && (Imm32 in flags || Imm64 in flags ==> Imm8 !in flags && Imm16 !in flags && !(Imm32 in flags && Imm64 in flags))
      && (Imm8 in flags && Imm16 in flags <==> cflags == 0x06) && (cflags == 0x06 ==> Relative !in flags)
      && (Relative in flags ==> Imm64 !in flags && (Imm8 in flags || Imm16 in flags || Imm32 in flags))
  {
  }

  /** Only ENTER has two immediates, and it has no ModRM. */
  lemma EnterOnly(hs: Record)
    ensures FinalCflags(hs, OpOf(hs), BaseOf(hs)) == 0x06 <==> hs.opcode == 0xc8
    ensures hs.opcode == 0xc8 ==> Cflags(BaseOf(hs), OpOf(hs)) % 2 == 0
  {
    hide Cflags, AdjustCflags, Entry, GroupMask;
    AdjustKnown(BaseOf(hs), OpOf(hs), hs.reg);
    OneByteTable(0xc8);
    CflagsKnown(BaseOf(hs), OpOf(hs));
  }

  /** For every instruction: Error is set exactly when one of the four reasons is; SIB, displacement and operand
      errors need ModRM, and a LOCK error needs LOCK; there is at most one displacement, and one immediate except
      in ENTER; a relative operand is an immediate of at most four bytes. */
  lemma FlagsConsistent(code: seq<Byte>, hs: Record, raw: nat)
    requires 32 <= |code| && Decodes(code, hs, raw)
    ensures Consistent(hs.flags)
    ensures Error in hs.flags <==> ErrorOpcode in hs.flags || ErrorLength in hs.flags || ErrorLock in hs.flags || ErrorOperand in hs.flags
    ensures ErrorLock in hs.flags ==> PrefixLock in hs.flags
    ensures Enter(hs) <==> hs.opcode == 0xc8
  {
    hide FlagsOf, SeenPref, PrefixBytesOf, ElseZero, Leading, PrefixFlags, RexBytes, ModrmBytes;
    FlagSources(code, hs, raw);
    DemandConsistent(hs, SeenPref(code), DoubleRex(code));
  }

  // ----- which records have one instruction

  lemma {:induction false} LeadingAgrees(a: seq<Byte>, b: seq<Byte>, k: nat, n: nat)
    requires 16 <= |a| == |b| && k <= n <= 15 && Leading(a, k) == n
    requires forall i :: 0 <= i <= n ==> a[i] == b[i]
    ensures Leading(b, k) == n
    decreases n - k
  {
    if k < n { LeadingAgrees(a, b, k + 1, n); }
  }

  lemma {:induction false} LastAgrees(a: seq<Byte>, b: seq<Byte>, e: nat, kind: Kind)
    requires e <= |a| == |b| && forall i :: 0 <= i < e ==> a[i] == b[i]
    ensures LastOf(a, e, kind) == LastOf(b, e, kind)
  {
    if e != 0 { LastAgrees(a, b, e - 1, kind); }
  }

  /** A change after the first byte that is no prefix leaves the prefixes. */
  lemma PrefixesAgree(a: seq<Byte>, b: seq<Byte>)
    requires 32 <= |a| == |b| && PrefixKind(a[PrefixCount(a)]) == NotPrefix
    requires forall i :: 0 <= i <= PrefixCount(a) ==> a[i] == b[i]
    ensures PrefixCount(b) == PrefixCount(a) == Leading(a, 0) == Leading(b, 0)
    ensures SeenPref(b) == SeenPref(a) && PrefixBytesOf(b, Leading(b, 0)) == PrefixBytesOf(a, Leading(a, 0))
  {
    hide Leading, LastOf, PrefixFlags;
    var n := PrefixCount(a);
    LeadingAgrees(a, b, 0, n);
    assert a[..n] == b[..n];
    forall kind
      ensures LastOf(a, n, kind) == LastOf(b, n, kind)
    {
      LastAgrees(a, b, n, kind);
    }
  }

  /** The second of two REX bytes can be any REX byte. */
  lemma DoubleRexTwin(code: seq<Byte>, hs: Record, raw: nat, x: Byte)
    requires 32 <= |code| && Decodes(code, hs, raw) && DoubleRex(code) && x / 16 == 4
    ensures var twin := code[PrefixCount(code) + 1 := x];
      PrefixCount(twin) == PrefixCount(code) && Decodes(twin, hs, raw)
  {
    hide FlagsOf, SeenPref, PrefixBytesOf, Leading, PrefixFlags, RexBytes, ModrmBytes, ElseZero, FieldsSplit;
    NoOperands(code, hs, raw);
    PrefixesAgree(code, code[PrefixCount(code) + 1 := x]);
  }

  /** ENTER is followed by three bytes, of which the first is not recorded. */
  lemma EnterShape(code: seq<Byte>, hs: Record, raw: nat)
    requires 32 <= |code| && Decodes(code, hs, raw) && hs.opcode == 0xc8
    ensures !DoubleRex(code) && ImmSize(hs.flags) == 3 && PrefixKind(code[PrefixCount(code)]) == NotPrefix
    ensures PrefixCount(code) < raw - 3 && (code[PrefixCount(code)] / 16 == 4 ==> PrefixCount(code) + 1 < raw - 3)
  {
    hide FlagsOf, SeenPref, PrefixBytesOf, Leading, PrefixFlags, ElseZero, FieldsSplit, RexSplit;
    FlagsConsistent(code, hs, raw);
    FlagSources(code, hs, raw);
    OpcodeAt(hs, code, PrefixCount(code), raw);
  }

  /** That byte can be anything. */
  lemma EnterTwin(code: seq<Byte>, hs: Record, raw: nat, x: Byte)
    requires 32 <= |code| && Decodes(code, hs, raw) && hs.opcode == 0xc8
    ensures 3 <= raw <= |code|
    ensures var twin := code[raw - 3 := x];
      PrefixCount(twin) == PrefixCount(code) < raw - 3 && Decodes(twin, hs, raw)
  {
    hide FlagsOf, SeenPref, PrefixBytesOf, Leading, PrefixFlags, RexBytes, ModrmBytes, ElseZero, FieldsSplit, RexSplit, PrefixCount;
    EnterShape(code, hs, raw);
    FlagsConsistent(code, hs, raw);
    var n, twin := PrefixCount(code), code[raw - 3 := x];
    PrefixesAgree(code, twin);
    assert twin[n..raw - 3] == code[n..raw - 3];
  }

  /** Otherwise the parts of the record, put together, are the instruction. */
  lemma PartsAreBytes(code: seq<Byte>, hs: Record, raw: nat)
    requires 32 <= |code| && Decodes(code, hs, raw) && !DoubleRex(code) && hs.opcode != 0xc8
    ensures PrefixCount(code) < raw <= |code| && DispSize(hs.flags) <= |hs.disp| && ImmSize(hs.flags) <= |hs.imm|
    ensures code[PrefixCount(code)..raw] == RexBytes(hs) + OpcodeBytes(hs) + ModrmBytes(hs) + ImmBytes(hs)
  {
    hide FlagsOf, SeenPref, PrefixBytesOf, Leading, PrefixFlags, RexBytes, ModrmBytes, ElseZero, FieldsSplit, RexSplit;
    hide PrefixCount, OpcodeBytes, ImmBytes;
    FlagsConsistent(code, hs, raw);
    var n, q := PrefixCount(code), raw - ImmSize(hs.flags);
    assert code[n..raw] == code[n..q] + code[q..raw];
  }

  /** A double REX is never mistaken for the opcode 0 that its record shows. */
  lemma SecondRexShows(a: seq<Byte>, rawA: nat, b: seq<Byte>, rawB: nat, hs: Record)
    requires 32 <= |a| && 32 <= |b| && Decodes(a, hs, rawA) && Decodes(b, hs, rawB) && !DoubleRex(a)
    ensures !DoubleRex(b)
  {
    hide FlagsOf, SeenPref, PrefixBytesOf, Leading, PrefixFlags, ElseZero, FieldsSplit, RexSplit, DoubleRex, PrefixCount, Cflags, Entry, GroupMask;
    if DoubleRex(b) {
      NoOperands(b, hs, rawB);
      ReadOperandBytes(a, hs, rawA);
      OneByteTable(0x00);
    }
  }

  /** Two instructions with the record of one that is neither have the same bytes after their prefixes. */
  lemma SameBytes(a: seq<Byte>, rawA: nat, b: seq<Byte>, rawB: nat, hs: Record)
    requires 32 <= |a| && 32 <= |b| && Decodes(a, hs, rawA) && Decodes(b, hs, rawB)
    requires !DoubleRex(a) && hs.opcode != 0xc8
    ensures PrefixCount(a) < rawA <= |a| && PrefixCount(b) < rawB <= |b| && a[PrefixCount(a)..rawA] == b[PrefixCount(b)..rawB]
  {
    hide Decodes, DoubleRex, PrefixCount;
    SecondRexShows(a, rawA, b, rawB, hs);
    PartsAreBytes(a, hs, rawA);
    PartsAreBytes(b, hs, rawB);
  }

  /** Every instruction with this record has these bytes after its prefixes. */
  ghost predicate Recoverable(code: seq<Byte>, hs: Record, raw: nat)
    requires 32 <= |code| && PrefixCount(code) < raw <= |code|
  {
    forall other: seq<Byte>, otherRaw: nat :: 32 <= |other| && Decodes(other, hs, otherRaw) ==>
      PrefixCount(other) < otherRaw <= |other| && other[PrefixCount(other)..otherRaw] == code[PrefixCount(code)..raw]
  }

  /** A record determines its instruction, prefixes aside, exactly if that is neither a double REX nor ENTER. */
  lemma BytesRecoverable(code: seq<Byte>, hs: Record, raw: nat)
    requires 32 <= |code| && Decodes(code, hs, raw)
    ensures PrefixCount(code) < raw <= |code|
    ensures Recoverable(code, hs, raw) <==> !DoubleRex(code) && hs.opcode != 0xc8
  {
    hide Describes, FlagsOf, SeenPref, PrefixBytesOf, Leading, PrefixFlags, ElseZero, FieldsSplit, RexSplit, PrefixCount;
    var n := PrefixCount(code);
    DescribesRange(hs, code, n, raw, DoubleRex(code));
    if DoubleRex(code) {
      var x: Byte := if code[n + 1] == 0x40 then 0x41 else 0x40;
      DoubleRexTwin(code, hs, raw, x);
      RexLength(code, hs, raw);
      assert code[n + 1 := x][n..raw][1] != code[n..raw][1];
    } else if hs.opcode == 0xc8 {
      EnterShape(code, hs, raw);
      var x: Byte := if code[raw - 3] == 0 then 1 else 0;
      EnterTwin(code, hs, raw, x);
      assert code[raw - 3 := x][n..raw][raw - 3 - n] != code[n..raw][raw - 3 - n];
    } else {
      forall other: seq<Byte>, otherRaw: nat | 32 <= |other| && Decodes(other, hs, otherRaw)
        ensures PrefixCount(other) < otherRaw <= |other| && other[PrefixCount(other)..otherRaw] == code[n..raw]
      {
        SameBytes(code, raw, other, otherRaw, hs);
      }
    }
  }

  lemma RexLength(code: seq<Byte>, hs: Record, raw: nat)
    requires 32 <= |code| && Decodes(code, hs, raw) && DoubleRex(code)
    ensures raw == PrefixCount(code) + 2
  {
  }

  // ----- the two kinds of twins, by example

  function Padded(bytes: seq<Byte>): (r: seq<Byte>)
    requires |bytes| <= 32
    ensures |r| == 32 && r[..|bytes|] == bytes
  {
    bytes + seq(32 - |bytes|, _ => 0)
  }

  lemma NoPrefixes(code: seq<Byte>)
    requires 32 <= |code| && PrefixKind(code[0]) == NotPrefix
    ensures PrefixCount(code) == 0
  {
  }

  /** 48 48 and 48 49, two REX bytes each, get the same record. */
  method DoubleRexExample() returns (a: Record, b: Record)
    ensures a == b && Decodes(Padded([0x48, 0x48]), a, 2) && Decodes(Padded([0x48, 0x49]), b, 2)
  {
    hide Decodes;
    var first, second := Padded([0x48, 0x48]), Padded([0x48, 0x49]);
    NoPrefixes(first);
    assert second == first[1 := 0x49];
    a := Disasm(first);
    RexLength(first, a, FlagLength(a, 0));
    DoubleRexTwin(first, a, 2, 0x49);
    b := Disasm(second);
    RecordUnique(second, a, 2, b, FlagLength(b, 0));
  }

  lemma EnterOpcode(code: seq<Byte>, hs: Record, raw: nat)
    requires 32 <= |code| && Decodes(code, hs, raw) && code[0] == 0xc8
    ensures hs.opcode == 0xc8 && raw == 4
  {
    hide FlagsOf, SeenPref, PrefixBytesOf, PrefixFlags, ElseZero, FieldsSplit, Leading;
    NoPrefixes(code);
    FlagSources(code, hs, raw);
    OpcodeAt(hs, code, 0, raw);
    FlagsConsistent(code, hs, raw);
    ReadOperandBytes(code, hs, raw);
    OneByteTable(0xc8);
    hide Cflags;
  }

  /** c8 01 02 03 and c8 ff 02 03, two ENTER instructions, get the same record. */
  method EnterExample() returns (a: Record, b: Record)
    ensures a == b && Decodes(Padded([0xc8, 0x01, 0x02, 0x03]), a, 4) && Decodes(Padded([0xc8, 0xff, 0x02, 0x03]), b, 4)
  {
    hide Decodes;
    var first, second := Padded([0xc8, 0x01, 0x02, 0x03]), Padded([0xc8, 0xff, 0x02, 0x03]);
    assert second == first[1 := 0xff];
    a := Disasm(first);
    NoPrefixes(first);
    EnterOpcode(first, a, FlagLength(a, 0));
    EnterTwin(first, a, 4, 0xff);
    b := Disasm(second);
    RecordUnique(second, a, 4, b, FlagLength(b, 0));
  }
}
