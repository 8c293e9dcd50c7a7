/**
 The documented bit layouts of LZVN read the other way: instructions as data, their bytes,
 and what they expand to. Decoding the bytes gives the expansion back.
 */
module LzvnEncode {
  import opened LzvnSpec
  import opened LzvnDecode

  datatype Op =
    | SmallDistance(lit: seq<Byte>, m: nat, d: nat)
    | MediumDistance(lit: seq<Byte>, m: nat, d: nat)
    | LargeDistance(lit: seq<Byte>, m: nat, d: nat)
    | PreviousDistance(lit: seq<Byte>, m: nat)
    | SmallLiteral(lit: seq<Byte>)
    | LargeLiteral(lit: seq<Byte>)
    | SmallMatch(m: nat)
    | LargeMatch(m: nat)
    | Padding(second: bool)

  /** The literal and match lengths that LLMMM can hold beside the other opcodes. */
  predicate FitsShort(lit: seq<Byte>, m: nat) {
    |lit| <= 3 && 3 <= m <= 10 - 2 * |lit|
  }

  /** The field ranges of each layout. */
  predicate Encodable(op: Op) {
    match op
    case SmallDistance(lit, m, d) => FitsShort(lit, m) && d < 0x600
    case MediumDistance(lit, m, d) => |lit| <= 3 && 3 <= m <= 34 && d < 0x4000
    case LargeDistance(lit, m, d) => FitsShort(lit, m) && d < 0x10000
    case PreviousDistance(lit, m) => FitsShort(lit, m) && lit != []
    case SmallLiteral(lit) => 1 <= |lit| <= 15
    case LargeLiteral(lit) => 16 <= |lit| <= 271
    case SmallMatch(m) => 1 <= m <= 15
    case LargeMatch(m) => 16 <= m <= 271
    case Padding(_) => true
  }

  /** The opcode bytes, without the literal. */
  function Opcode(op: Op): (r: seq<Byte>)
    requires Encodable(op)
    ensures 1 <= |r| <= 3
  {
    match op
    case SmallDistance(lit, m, d) => [64 * |lit| + 8 * (m - 3) + d / 0x100, d % 0x100]
    case MediumDistance(lit, m, d) =>
      [0xA0 + 8 * |lit| + (m - 3) / 4, (4 * d + (m - 3) % 4) % 0x100, (4 * d + (m - 3) % 4) / 0x100]
    case LargeDistance(lit, m, d) => [64 * |lit| + 8 * (m - 3) + 7, d % 0x100, d / 0x100]
    case PreviousDistance(lit, m) => [64 * |lit| + 8 * (m - 3) + 6]
    case SmallLiteral(lit) => [0xE0 + |lit|]
    case LargeLiteral(lit) => [0xE0, |lit| - 16]
    case SmallMatch(m) => [0xF0 + m]
    case LargeMatch(m) => [0xF0, m - 16]
    case Padding(second) => [if second then 0x16 else 0x0E]
  }

  function Literal(op: Op): (r: seq<Byte>) {
    if op.SmallMatch? || op.LargeMatch? || op.Padding? then [] else op.lit
  }

  function Encode(op: Op): (r: seq<Byte>)
    requires Encodable(op)
  {
    Opcode(op) + Literal(op)
  }

  const END_MARKER: seq<Byte> := [6, 0, 0, 0, 0, 0, 0, 0]

  function EncodeAll(ops: seq<Op>): (r: seq<Byte>)
    requires forall i :: 0 <= i < |ops| ==> Encodable(ops[i])
    ensures r != []
  {
    if ops == [] then END_MARKER else Encode(ops[0]) + EncodeAll(ops[1..])
  }

  /** The distance in force after the instruction. */
  function DistanceAfter(op: Op, d: nat): (r: nat) {
    if op.SmallDistance? || op.MediumDistance? || op.LargeDistance? then op.d else d
  }

  function MatchLength(op: Op): (r: nat) {
    if op.SmallLiteral? || op.LargeLiteral? || op.Padding? then 0 else op.m
  }

  /** A match must refer to bytes that are there. */
  predicate Legal(op: Op, out: seq<Byte>, d: nat) {
    Encodable(op) && (MatchLength(op) != 0 ==> 1 <= DistanceAfter(op, d) <= |out| + |Literal(op)|)
  }

  function Expand(op: Op, out: seq<Byte>, d: nat): (r: seq<Byte>)
    requires Legal(op, out, d)
  {
    if MatchLength(op) == 0 then out + Literal(op)
    else CopyMatch(out + Literal(op), DistanceAfter(op, d), MatchLength(op))
  }

  predicate AllLegal(ops: seq<Op>, out: seq<Byte>, d: nat) {
    ops == [] || (Legal(ops[0], out, d) && AllLegal(ops[1..], Expand(ops[0], out, d), DistanceAfter(ops[0], d)))
  }

  /** The output and the last distance of a whole sequence. */
  function ExpandAll(ops: seq<Op>, out: seq<Byte>, d: nat): (r: (seq<Byte>, nat))
    requires AllLegal(ops, out, d)
  {
    if ops == [] then (out, d)
    else ExpandAll(ops[1..], Expand(ops[0], out, d), DistanceAfter(ops[0], d))
  }

  lemma {:induction false} LegalEncodable(ops: seq<Op>, out: seq<Byte>, d: nat)
    requires AllLegal(ops, out, d)
    ensures forall i :: 0 <= i < |ops| ==> Encodable(ops[i])
  {
    if ops != [] {
      LegalEncodable(ops[1..], Expand(ops[0], out, d), DistanceAfter(ops[0], d));
      forall i | 0 <= i < |ops|
        ensures Encodable(ops[i])
      {
        if 0 < i { assert ops[i] == ops[1..][i - 1]; }
      }
    }
  }

  /** The opcode bytes of `op` stand at `pos`. */
  predicate OpcodeAt(src: seq<Byte>, pos: nat, op: Op)
    requires Encodable(op)
  {
    && pos + |Opcode(op)| <= |src|
    && src[pos] == Opcode(op)[0]
    && (1 < |Opcode(op)| ==> src[pos + 1] == Opcode(op)[1])
    && (2 < |Opcode(op)| ==> src[pos + 2] == Opcode(op)[2])
  }

  function Checked(op: Op): (r: bool) {
    op.SmallDistance? || op.MediumDistance? || op.LargeDistance? || op.PreviousDistance?
  }

  function InstrOf(op: Op, d: nat): (r: Instr)
    requires Encodable(op)
  {
    Instr(|Opcode(op)|, |Literal(op)|, MatchLength(op), DistanceAfter(op, d), Checked(op))
  }

  /** The fields of an LLMMMxxx byte, and its place among the opcodes. */
  lemma ShortFields(l: nat, m: nat, x: nat)
    requires l <= 3 && 3 <= m <= 10 - 2 * l && x < 8
    ensures var opc := 64 * l + 8 * (m - 3) + x;
      && opc < 0x100 && opc / 64 % 4 == l && opc / 8 % 8 == m - 3 && opc % 8 == x
      && !(0xA0 <= opc < 0xC0) && !(0x70 <= opc < 0x80) && opc < 0xD0
  {
  }

  lemma ParseShort(src: seq<Byte>, pos: nat, d: nat, op: Op)
    requires op.SmallDistance? || op.LargeDistance? || op.PreviousDistance?
    requires Encodable(op) && OpcodeAt(src, pos, op) && pos + |Encode(op)| < |src|
    ensures Parse(src, pos, d) == Work(InstrOf(op, d))
  {
    ShortFields(|op.lit|, op.m, if op.SmallDistance? then op.d / 0x100 else if op.LargeDistance? then 7 else 6);
  }

  lemma ParseMedium(src: seq<Byte>, pos: nat, d: nat, op: Op)
    requires op.MediumDistance?
    requires Encodable(op) && OpcodeAt(src, pos, op) && pos + |Encode(op)| < |src|
    ensures Parse(src, pos, d) == Work(InstrOf(op, d))
  {
    var opc, opc23 := 0xA0 + 8 * |op.lit| + (op.m - 3) / 4, 4 * op.d + (op.m - 3) % 4;
    assert opc / 8 % 4 == |op.lit| && opc % 8 == (op.m - 3) / 4;
    assert opc23 % 4 == (op.m - 3) % 4 && opc23 / 4 == op.d;
    assert Load2(src, pos + 1) == opc23;
  }

  lemma ParsePlain(src: seq<Byte>, pos: nat, d: nat, op: Op)
    requires !Checked(op)
    requires Encodable(op) && OpcodeAt(src, pos, op) && pos + |Encode(op)| < |src|
    ensures Parse(src, pos, d) == Work(InstrOf(op, d))
  {
  }

  lemma EncodePlaced(src: seq<Byte>, pos: nat, op: Op, rest: seq<Byte>)
    requires pos <= |src| && Encodable(op) && src[pos..] == Encode(op) + rest && rest != []
    ensures pos + |Encode(op)| < |src| && |Encode(op)| == |Opcode(op)| + |Literal(op)| && OpcodeAt(src, pos, op)
    ensures src[pos + |Opcode(op)|..pos + |Encode(op)|] == Literal(op)
  {
    hide Opcode, Literal, Encodable;
    var n := |Opcode(op)|;
    assert src[pos..][..n] == Opcode(op);
    assert src[pos + n..pos + |Encode(op)|] == src[pos..][n..|Encode(op)|] == Literal(op);
    assert src[pos] == src[pos..][..n][0];
    assert 1 < n ==> src[pos + 1] == src[pos..][..n][1];
    assert 2 < n ==> src[pos + 2] == src[pos..][..n][2];
  }

  /** One instruction's bytes make the machine do what the instruction means. */
  lemma StepEncoded(src: seq<Byte>, fill: seq<Byte>, s: State, op: Op, rest: seq<Byte>)
    requires Coherent(src, s) && s.Boundary() && Legal(op, s.out, s.dist)
    requires src[s.pos..] == Encode(op) + rest && rest != []
    ensures Step(src, fill, s) == Go(State(s.pos + |Encode(op)|, Expand(op, s.out, s.dist), 0, 0, DistanceAfter(op, s.dist)))
  {
    hide Parse, CopyMatch, Opcode, Literal, Encodable, OpcodeAt, Encode;
    EncodePlaced(src, s.pos, op, rest);
    if op.MediumDistance? { ParseMedium(src, s.pos, s.dist, op); }
    else if Checked(op) { ParseShort(src, s.pos, s.dist, op); }
    else { ParsePlain(src, s.pos, s.dist, op); }
  }

  /** Decoding the encoding of any legal instruction sequence yields its expansion, uses up the source
      and ends at the end marker. */
  lemma {:induction false} RoundTrip(src: seq<Byte>, fill: seq<Byte>, s: State, ops: seq<Op>)
    requires Coherent(src, s) && s.Boundary() && AllLegal(ops, s.out, s.dist)
    requires forall i :: 0 <= i < |ops| ==> Encodable(ops[i])
    requires src[s.pos..] == EncodeAll(ops)
    ensures var (out, d) := ExpandAll(ops, s.out, s.dist);
      Run(src, fill, s) == Final(EndOfStream, State(|src|, out, 0, 0, d))
    decreases |ops|
  {
    hide Parse, Emit, Encode, Expand;
    if ops == [] {
      EndMarker(src, fill, s);
    } else {
      var op := ops[0];
      StepEncoded(src, fill, s, op, EncodeAll(ops[1..]));
      var next := Step(src, fill, s).next;
      assert src[next.pos..] == src[s.pos..][|Encode(op)|..] == EncodeAll(ops[1..]);
      RoundTrip(src, fill, next, ops[1..]);
    }
  }

  lemma EndMarker(src: seq<Byte>, fill: seq<Byte>, s: State)
    requires Coherent(src, s) && s.Boundary() && src[s.pos..] == END_MARKER
    ensures Run(src, fill, s) == Final(EndOfStream, s.(pos := |src|))
  {
  }

  /** The round trip from a fresh decoder. */
  lemma EncodeThenDecode(ops: seq<Op>, fill: seq<Byte>)
    requires AllLegal(ops, [], 0)
    ensures forall i :: 0 <= i < |ops| ==> Encodable(ops[i])
    ensures Run(EncodeAll(ops), fill, START) ==
            Final(EndOfStream, State(|EncodeAll(ops)|, ExpandAll(ops, [], 0).0, 0, 0, ExpandAll(ops, [], 0).1))
  {
    LegalEncodable(ops, [], 0);
    RoundTrip(EncodeAll(ops), fill, START, ops);
  }

  /** The decoder itself gives the expansion back, as far as the buffer goes. */
  method DecodeEncoded(ops: seq<Op>, dst: array<Byte>) returns (n: nat)
    requires AllLegal(ops, [], 0)
    requires forall i :: 0 <= i < |ops| ==> Encodable(ops[i])
    modifies dst
    ensures var whole := ExpandAll(ops, [], 0).0;
      n == (if |whole| < dst.Length then |whole| else dst.Length) && dst[..n] == whole[..n]
  {
    hide Run, Encodable, AllLegal, ExpandAll, EncodeAll;
    n := DecodeBuffer(dst, EncodeAll(ops));
    EncodeThenDecode(ops, dst[..]);
  }
}
