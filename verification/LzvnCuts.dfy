/**
 Exactly which bytes the decoder takes for an instruction, for the end marker, or for neither; and what
 becomes of a stream that is cut off.
 */
module LzvnCuts {
  import opened LzvnSpec
  import opened LzvnDecode
  import opened LzvnEncode

  // ----- the layouts, read from the bytes

  /** The entry of the jump table for an opcode. */
  function Target(opc: Byte): (k: Kind) {
    JumpRow(opc / 8)[opc % 8]
  }

  function ShortLiteral(src: seq<Byte>, pos: nat, n: nat): (r: seq<Byte>)
    requires pos < |src| && pos + n + src[pos] / 64 <= |src|
  {
    src[pos + n..pos + n + src[pos] / 64]
  }

  /** The instruction that the bytes at `pos` encode. */
  function OpAt(src: seq<Byte>, pos: nat): (op: Op)
    requires pos < |src| && Parse(src, pos, 0).Work?
  {
    var opc := src[pos];
    var m := opc / 8 % 8 + 3;
    match Classify(opc)
    case SmlD => SmallDistance(ShortLiteral(src, pos, 2), m, opc % 8 * 0x100 + src[pos + 1])
    case MedD =>
      var pair := Load2(src, pos + 1);
      MediumDistance(src[pos + 3..pos + 3 + (opc - 0xA0) / 8], opc % 8 * 4 + pair % 4 + 3, pair / 4)
    case LrgD => LargeDistance(ShortLiteral(src, pos, 3), m, Load2(src, pos + 1))
    case PreD => PreviousDistance(ShortLiteral(src, pos, 1), m)
    case SmlM => SmallMatch(opc - 0xF0)
    case LrgM => LargeMatch(src[pos + 1] as int + 16)
    case SmlL => SmallLiteral(src[pos + 1..pos + 1 + (opc - 0xE0)])
    case LrgL => LargeLiteral(src[pos + 2..pos + 2 + src[pos + 1] as int + 16])
    case _ => Padding(opc == 0x16)
  }

  /** The bytes of `op` stand at `pos`, and at least one more byte follows. */
  predicate Stands(src: seq<Byte>, pos: nat, op: Op) {
    && Encodable(op) && pos + |Encode(op)| < |src|
    && OpcodeAt(src, pos, op) && src[pos + |Opcode(op)|..pos + |Encode(op)|] == Literal(op)
  }

  lemma ShortOpcode(opc: Byte)
    requires Classify(opc) in {SmlD, LrgD, PreD}
    ensures var l, m := opc / 64, opc / 8 % 8 + 3;
      opc == 64 * l + 8 * (m - 3) + opc % 8 && l <= 3 && m <= 10 - 2 * l
  {
    var l := opc / 64;
    assert l == 0 || l == 1 || l == 2 || l == 3;
  }

  lemma SmallStands(src: seq<Byte>, pos: nat)
    requires pos < |src| && Classify(src[pos]) == SmlD && Parse(src, pos, 0).Work?
    ensures Stands(src, pos, OpAt(src, pos))
  {
    ShortOpcode(src[pos]);
    assert |ShortLiteral(src, pos, 2)| == src[pos] / 64;
  }

  lemma LargeStands(src: seq<Byte>, pos: nat)
    requires pos < |src| && Classify(src[pos]) == LrgD && Parse(src, pos, 0).Work?
    ensures Stands(src, pos, OpAt(src, pos))
  {
    ShortOpcode(src[pos]);
    assert |ShortLiteral(src, pos, 3)| == src[pos] / 64;
  }

  lemma PreviousStands(src: seq<Byte>, pos: nat)
    requires pos < |src| && Classify(src[pos]) == PreD && Parse(src, pos, 0).Work?
    ensures Stands(src, pos, OpAt(src, pos))
  {
    ShortOpcode(src[pos]);
    assert |ShortLiteral(src, pos, 1)| == src[pos] / 64;
  }

  lemma MediumFields(opc: nat, pair: nat)
    requires 0xA0 <= opc < 0xC0 && pair < 0x10000
    ensures var l, m, d := (opc - 0xA0) / 8, opc % 8 * 4 + pair % 4 + 3, pair / 4;
      && l <= 3 && 3 <= m <= 34 && d < 0x4000
      && opc == 0xA0 + 8 * l + (m - 3) / 4 && 4 * d + (m - 3) % 4 == pair
  {
  }

  lemma Load2Bytes(src: seq<Byte>, i: nat)
    requires i + 1 < |src|
    ensures Load2(src, i) % 0x100 == src[i] && Load2(src, i) / 0x100 == src[i + 1]
  {
  }

  lemma MediumStands(src: seq<Byte>, pos: nat)
    requires pos < |src| && Classify(src[pos]) == MedD && Parse(src, pos, 0).Work?
    ensures Stands(src, pos, OpAt(src, pos))
  {
    var opc := src[pos] as int;
    assert 0xA0 <= opc < 0xC0 && pos + 3 + opc / 8 % 4 < |src| && opc / 8 % 4 == (opc - 0xA0) / 8;
    var pair := Load2(src, pos + 1);
    MediumFields(opc, pair);
    Load2Bytes(src, pos + 1);
    var op := OpAt(src, pos);
    assert op == MediumDistance(src[pos + 3..pos + 3 + (opc - 0xA0) / 8], opc % 8 * 4 + pair % 4 + 3, pair / 4);
    hide Load2, Classify, Parse, OpAt;
    assert Opcode(op) == [opc, src[pos + 1], src[pos + 2]];
  }

  lemma PlainStands(src: seq<Byte>, pos: nat)
    requires pos < |src| && Classify(src[pos]) in {SmlM, LrgM, SmlL, LrgL, Nop} && Parse(src, pos, 0).Work?
    ensures Stands(src, pos, OpAt(src, pos))
  {
  }

  lemma WorkStands(src: seq<Byte>, pos: nat, d: nat)
    requires Parse(src, pos, d).Work?
    ensures pos < |src| && Parse(src, pos, 0).Work?
    ensures Stands(src, pos, OpAt(src, pos))
  {
    assert pos < |src| && Classify(src[pos]) !in {Eos, Udef} && Parse(src, pos, 0).Work?;
    hide Parse, Classify, Stands, OpAt;
    if Classify(src[pos]) == SmlD { SmallStands(src, pos); }
    else if Classify(src[pos]) == LrgD { LargeStands(src, pos); }
    else if Classify(src[pos]) == PreD { PreviousStands(src, pos); }
    else if Classify(src[pos]) == MedD { MediumStands(src, pos); }
    else { PlainStands(src, pos); }
  }

  lemma StandsWork(src: seq<Byte>, pos: nat, d: nat, op: Op)
    requires Stands(src, pos, op)
    ensures Parse(src, pos, d) == Work(InstrOf(op, d))
  {
    hide Parse, InstrOf;
    if op.MediumDistance? { ParseMedium(src, pos, d, op); }
    else if Checked(op) { ParseShort(src, pos, d, op); }
    else { ParsePlain(src, pos, d, op); }
  }

  lemma ParseStops(src: seq<Byte>, pos: nat, d: nat)
    requires pos < |src|
    ensures Parse(src, pos, d).End? <==> src[pos] == 6 && pos + 8 <= |src|
    ensures Parse(src, pos, d) == Fail(UndefinedOpcode) <==> Target(src[pos]) == Udef
    ensures Parse(src, pos, d) == Fail(EndTruncated) <==> src[pos] == 6 && |src| < pos + 8
  {
    hide JumpRow;
    ClassifyIsJumpTable(src[pos]);
  }

  /** What the decoder makes of the bytes at `pos`, from the jump table and the documented layouts alone: an
      instruction exactly if one stands there with a byte after it, the end marker exactly if opcode 6 has its
      eight bytes, an undefined opcode exactly if the table says so, and otherwise too short a source. */
  lemma ParseExactly(src: seq<Byte>, pos: nat, d: nat)
    ensures Parse(src, pos, d).Work? <==> exists op :: Stands(src, pos, op)
    ensures forall op :: Stands(src, pos, op) ==> Parse(src, pos, d) == Work(InstrOf(op, d))
    ensures Parse(src, pos, d).End? <==> pos < |src| && src[pos] == 6 && pos + 8 <= |src|
    ensures Parse(src, pos, d) == Fail(UndefinedOpcode) <==> pos < |src| && Target(src[pos]) == Udef
    ensures Parse(src, pos, d) == Fail(EndTruncated) <==> pos < |src| && src[pos] == 6 && |src| < pos + 8
    ensures Parse(src, pos, d) == Fail(SourceTruncated) <==>
      |src| <= pos || (Target(src[pos]) != Udef && src[pos] != 6 && forall op :: !Stands(src, pos, op))
  {
    if |src| <= pos {
      assert Parse(src, pos, d) == Fail(SourceTruncated);
    } else {
      hide Parse, Stands, InstrOf, Target, OpAt;
      ParseStops(src, pos, d);
      forall op | Stands(src, pos, op)
        ensures Parse(src, pos, d) == Work(InstrOf(op, d))
      {
        StandsWork(src, pos, d, op);
      }
      if Parse(src, pos, d).Work? { WorkStands(src, pos, d); }
    }
  }

  /** Legal instructions are exactly those that the decoder carries out; a match without a distance test, which it
      carries out in any case, is legal exactly if some distance is in force. */
  lemma LegalExactly(src: seq<Byte>, fill: seq<Byte>, s: State, op: Op)
    requires Coherent(src, s) && s.Boundary() && Stands(src, s.pos, op)
    ensures Checked(op) ==> (Legal(op, s.out, s.dist) <==> Step(src, fill, s).Go?)
    ensures Checked(op) && !Legal(op, s.out, s.dist) ==> Step(src, fill, s) == Halt(BadDistance, s)
    ensures !Checked(op) ==> Step(src, fill, s).Go? && (Legal(op, s.out, s.dist) <==> MatchLength(op) == 0 || s.dist != 0)
  {
    hide Parse, Match;
    StandsWork(src, s.pos, s.dist, op);
  }

  // ----- streams that are cut off

  /** The bytes of the first `k` instructions. */
  function Before(ops: seq<Op>, k: nat): (n: nat)
    requires k <= |ops| && forall i :: 0 <= i < |ops| ==> Encodable(ops[i])
  {
    if k == 0 then 0 else |Encode(ops[0])| + Before(ops[1..], k - 1)
  }

  lemma {:induction false} LegalPrefix(ops: seq<Op>, k: nat, out: seq<Byte>, d: nat)
    requires k <= |ops| && AllLegal(ops, out, d)
    ensures AllLegal(ops[..k], out, d)
    decreases k
  {
    hide Legal, Expand;
    if k > 0 {
      LegalPrefix(ops[1..], k - 1, Expand(ops[0], out, d), DistanceAfter(ops[0], d));
      assert ops[..k][1..] == ops[1..][..k - 1];
    }
  }

  /** An instruction that is not followed by another byte, or that lacks some of its own, is no instruction yet. */
  lemma ParseCut(src: seq<Byte>, whole: seq<Byte>, pos: nat, d: nat)
    requires pos < |src| && src <= whole && Parse(whole, pos, d).Work?
    requires var i := Parse(whole, pos, d).instr; |src| <= pos + i.len + i.lit
    ensures Parse(src, pos, d) == Fail(SourceTruncated)
  {
    hide Classify, Extract;
    assert src[pos] == whole[pos];
    assert pos + 1 < |src| ==> src[pos + 1] == whole[pos + 1];
  }

  lemma StepCut(src: seq<Byte>, whole: seq<Byte>, fill: seq<Byte>, s: State, op: Op, rest: seq<Byte>)
    requires Coherent(src, s) && s.Boundary() && Encodable(op) && s.pos < |src| <= s.pos + |Encode(op)|
    requires src <= whole && whole[s.pos..] == Encode(op) + rest && rest != []
    ensures Run(src, fill, s) == Final(SourceTruncated, s)
  {
    hide Parse, Opcode, Literal, Encodable, OpcodeAt, Emit;
    EncodePlaced(whole, s.pos, op, rest);
    StandsWork(whole, s.pos, s.dist, op);
    ParseCut(src, whole, s.pos, s.dist);
    HaltRun(src, fill, s);
  }

  /** A stream cut off in instruction `k` runs through the instructions before it and stops there. */
  lemma {:induction false} CutRun(src: seq<Byte>, whole: seq<Byte>, fill: seq<Byte>, s: State, ops: seq<Op>, k: nat)
    requires Coherent(src, s) && s.Boundary() && AllLegal(ops, s.out, s.dist) && k < |ops|
    requires forall i :: 0 <= i < |ops| ==> Encodable(ops[i])
    requires src <= whole && whole[s.pos..] == EncodeAll(ops)
    requires s.pos + Before(ops, k) < |src| <= s.pos + Before(ops, k) + |Encode(ops[k])|
    ensures AllLegal(ops[..k], s.out, s.dist)
    ensures var (out, d) := ExpandAll(ops[..k], s.out, s.dist);
      Run(src, fill, s) == Final(SourceTruncated, State(s.pos + Before(ops, k), out, 0, 0, d))
    decreases k
  {
    hide Parse, Emit, Encode, Expand, Step, Legal, Encodable;
    var op := ops[0];
    if k == 0 {
      StepCut(src, whole, fill, s, op, EncodeAll(ops[1..]));
    } else {
      StepPrefix(src, whole, fill, s, op, EncodeAll(ops[1..]));
      var next := Step(src, fill, s).next;
      assert whole[next.pos..] == whole[s.pos..][|Encode(op)|..] == EncodeAll(ops[1..]);
      CutRun(src, whole, fill, next, ops[1..], k - 1);
      assert ops[..k][1..] == ops[1..][..k - 1];
    }
  }

  /** An instruction that is there in full, with one more byte, is carried out. */
  lemma StepPrefix(src: seq<Byte>, whole: seq<Byte>, fill: seq<Byte>, s: State, op: Op, rest: seq<Byte>)
    requires Coherent(src, s) && s.Boundary() && Legal(op, s.out, s.dist) && s.pos + |Encode(op)| < |src|
    requires src <= whole && whole[s.pos..] == Encode(op) + rest
    ensures Step(src, fill, s) == Go(State(s.pos + |Encode(op)|, Expand(op, s.out, s.dist), 0, 0, DistanceAfter(op, s.dist)))
  {
    hide Step, Encode, Expand;
    var rest' := src[s.pos + |Encode(op)|..];
    assert src[s.pos..] == Encode(op) + rest' by {
      var n := |Encode(op)|;
      assert src[s.pos..s.pos + n] == whole[s.pos..s.pos + n] == whole[s.pos..][..n] == Encode(op);
      assert src[s.pos..] == src[s.pos..s.pos + n] + src[s.pos + n..];
    }
    StepEncoded(src, fill, s, op, rest');
  }

  lemma {:induction false} CutFits(ops: seq<Op>, k: nat)
    requires k < |ops| && forall i :: 0 <= i < |ops| ==> Encodable(ops[i])
    ensures Before(ops, k) + |Encode(ops[k])| < |EncodeAll(ops)|
    decreases k
  {
    hide Encode, Encodable;
    if k > 0 { CutFits(ops[1..], k - 1); }
  }

  /** Cutting the encoding off in instruction `k` leaves the expansion of the instructions before it: that is what
      the decoder returns, as far as the buffer goes. */
  method DecodeCut(ops: seq<Op>, k: nat, cut: nat, dst: array<Byte>) returns (n: nat)
    requires AllLegal(ops, [], 0) && k < |ops| && forall i :: 0 <= i < |ops| ==> Encodable(ops[i])
    requires Before(ops, k) < cut <= Before(ops, k) + |Encode(ops[k])|
    modifies dst
    ensures AllLegal(ops[..k], [], 0)
    ensures var part := ExpandAll(ops[..k], [], 0).0;
      n == (if |part| < dst.Length then |part| else dst.Length) && dst[..n] == part[..n]
  {
    hide Run, Encodable, AllLegal, ExpandAll, EncodeAll, Before, Encode;
    CutFits(ops, k);
    var src := EncodeAll(ops)[..cut];
    n := DecodeBuffer(dst, src);
    CutRun(src, EncodeAll(ops), dst[..], START, ops, k);
  }

  // ----- a cut off end marker

  lemma MarkerCut(src: seq<Byte>, fill: seq<Byte>, s: State)
    requires Coherent(src, s) && s.Boundary() && s.pos < |src| < s.pos + 8 && src[s.pos] == 6
    ensures Run(src, fill, s) == Final(EndTruncated, s)
  {
    hide Parse, Target, Emit;
    ParseStops(src, s.pos, s.dist);
    HaltRun(src, fill, s);
  }

  lemma {:induction false} MarkerCutRun(src: seq<Byte>, whole: seq<Byte>, fill: seq<Byte>, s: State, ops: seq<Op>) returns (t: State)
    requires Coherent(src, s) && s.Boundary() && AllLegal(ops, s.out, s.dist)
    requires forall i :: 0 <= i < |ops| ==> Encodable(ops[i])
    requires src <= whole && whole[s.pos..] == EncodeAll(ops) && 8 <= |whole| && |whole| - 8 < |src| < |whole|
    ensures var (out, d) := ExpandAll(ops, s.out, s.dist);
      Run(src, fill, s) == Final(EndTruncated, State(|whole| - 8, out, 0, 0, d))
    ensures ops != [] ==>
      && AllLegal(ops[..|ops| - 1], s.out, s.dist)
      && LastOf(src, fill, s, t, ExpandAll(ops[..|ops| - 1], s.out, s.dist).0)
    decreases |ops|
  {
    hide Parse, Emit, Encode, Expand, Step, Legal, Encodable;
    t := s;
    if ops == [] {
      assert whole[s.pos..][0] == 6;
      MarkerCut(src, fill, s);
    } else {
      var op := ops[0];
      assert |EncodeAll(ops[1..])| >= 8 by { MarkerLength(ops[1..]); }
      StepPrefix(src, whole, fill, s, op, EncodeAll(ops[1..]));
      var next := Step(src, fill, s).next;
      assert whole[next.pos..] == whole[s.pos..][|Encode(op)|..] == EncodeAll(ops[1..]);
      var u := MarkerCutRun(src, whole, fill, next, ops[1..]);
      var n := |ops| - 1;
      if n == 0 {
        assert ops[..0] == [];
        ReachesSelf(src, fill, s);
      } else {
        assert ops[..n][1..] == ops[1..][..n - 1];
        t := u;
      }
    }
  }

  /** `t` is the last state but one of the run from `s`, and has the output `out`. */
  ghost predicate LastOf(src: seq<Byte>, fill: seq<Byte>, s: State, t: State, out: seq<Byte>)
    requires Coherent(src, s)
  {
    Coherent(src, t) && Reaches(src, fill, s, t) && Step(src, fill, t) == Go(Run(src, fill, s).at) && t.out == out
  }

  lemma {:induction false} MarkerLength(ops: seq<Op>)
    requires forall i :: 0 <= i < |ops| ==> Encodable(ops[i])
    ensures |EncodeAll(ops)| >= 8 && (ops != [] ==> |EncodeAll(ops)| > 8)
  {
    hide Opcode, Encodable;
    if ops != [] { MarkerLength(ops[1..]); }
  }

  lemma {:induction false} ReachedPos(src: seq<Byte>, fill: seq<Byte>, s: State, t: State)
    requires Coherent(src, s) && s.Boundary() && Reaches(src, fill, s, t)
    ensures s.pos <= t.pos
    decreases |src| - s.pos
  {
    if s != t { ReachedPos(src, fill, Step(src, fill, s).next, t); }
  }

  /** A run passes into a state from one other state only. */
  lemma {:induction false} OneBefore(src: seq<Byte>, fill: seq<Byte>, s: State, t: State, u: State)
    requires Coherent(src, s) && s.Boundary() && Coherent(src, t) && Coherent(src, u)
    requires Reaches(src, fill, s, t) && Reaches(src, fill, s, u)
    requires Step(src, fill, t).Go? && Step(src, fill, t) == Step(src, fill, u)
    ensures t == u
    decreases |src| - s.pos
  {
    hide Step;
    if s == t {
      if s != u {
        ReachedPos(src, fill, Step(src, fill, s).next, u);
        ReachedBoundary(src, fill, s, u);
      }
    } else if s == u {
      ReachedPos(src, fill, Step(src, fill, s).next, t);
      ReachedBoundary(src, fill, s, t);
    } else {
      OneBefore(src, fill, Step(src, fill, s).next, t, u);
    }
  }

  lemma {:induction false} ReachedBoundary(src: seq<Byte>, fill: seq<Byte>, s: State, t: State)
    requires Coherent(src, s) && s.Boundary() && Reaches(src, fill, s, t)
    ensures t.Boundary()
    decreases |src| - s.pos
  {
    hide Step;
    if s != t { ReachedBoundary(src, fill, Step(src, fill, s).next, t); }
  }

  /** Cutting the encoding off in the end marker takes the last instruction back as well, if there was room for
      its output. */
  method DecodeCutMarker(ops: seq<Op>, cut: nat, dst: array<Byte>) returns (n: nat)
    requires AllLegal(ops, [], 0) && ops != [] && forall i :: 0 <= i < |ops| ==> Encodable(ops[i])
    requires |EncodeAll(ops)| - 8 < cut < |EncodeAll(ops)|
    modifies dst
    ensures AllLegal(ops[..|ops| - 1], [], 0)
    ensures |ExpandAll(ops, [], 0).0| < dst.Length ==>
      var part := ExpandAll(ops[..|ops| - 1], [], 0).0; n == |part| <= dst.Length && dst[..n] == part
  {
    hide Run, Step, Encodable, AllLegal, ExpandAll, EncodeAll, Reaches;
    MarkerLength(ops);
    var src := EncodeAll(ops)[..cut];
    n := DecodeBuffer(dst, src);
    ghost var fill := dst[..];
    ghost var t := MarkerCutRun(src, EncodeAll(ops), fill, START, ops);
    ghost var f := Run(src, fill, START);
    if |f.at.out| < dst.Length {
      ghost var u :| LastGood(src, fill, u, f.at) && n == |u.out|;
      OneBefore(src, fill, START, t, u);
    }
  }
}
