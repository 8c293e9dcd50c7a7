/**
 What an LZVN stream means: each instruction copies a literal from the source and then
 repeats a match from the output, one byte after the other, with unlimited room to write.
 A match at distance 0, which only a match without its own distance can have, leaves the
 bytes that are in the buffer; `fill` stands for those.
 */
module LzvnSpec {

  type Byte = b: int | 0 <= b < 0x100

  /** The jump targets of the decoder. */
  datatype Kind = SmlD | MedD | LrgD | PreD | SmlL | LrgL | SmlM | LrgM | Nop | Eos | Udef

  function Classify(opc: Byte): (k: Kind) {
    if 0xA0 <= opc < 0xC0 then MedD
    else if opc == 0xE0 then LrgL
    else if 0xE0 < opc < 0xF0 then SmlL
    else if opc == 0xF0 then LrgM
    else if 0xF0 < opc then SmlM
    else if 0x70 <= opc < 0x80 || 0xD0 <= opc < 0xE0 then Udef
    else if opc % 8 == 7 then LrgD
    else if opc % 8 != 6 then SmlD
    else if opc == 6 then Eos
    else if opc == 14 || opc == 22 then Nop
    else if opc < 0x40 then Udef
    else PreD
  }

  /** The decoder's jump table, one row of eight opcodes at a time. */
  function JumpRow(row: nat): (r: seq<Kind>)
    requires row < 32
    ensures |r| == 8
  {
    var dist := [SmlD, SmlD, SmlD, SmlD, SmlD, SmlD];
    if row == 0 then dist + [Eos, LrgD]
    else if row in {1, 2} then dist + [Nop, LrgD]
    else if row in {3, 4, 5, 6, 7} then dist + [Udef, LrgD]
    else if row in {8, 9, 10, 11, 12, 13, 16, 17, 18, 19, 24, 25} then dist + [PreD, LrgD]
    else if row in {20, 21, 22, 23} then seq(8, _ => MedD)
    else if row in {14, 15, 26, 27} then seq(8, _ => Udef)
    else if row == 28 then [LrgL] + seq(7, _ => SmlL)
    else if row == 29 then seq(8, _ => SmlL)
    else if row == 30 then [LrgM] + seq(7, _ => SmlM)
    else seq(8, _ => SmlM)
  }

  /** Every entry of the jump table. */
  lemma ClassifyIsJumpTable(opc: Byte)
    ensures Classify(opc) == JumpRow(opc / 8)[opc % 8]
  {
    var row, column := opc / 8, opc % 8;
    assert opc == 8 * row + column && row < 32 && column < 8;
  }

  /** The bits [lsb, lsb + width) of a container, with 2^lsb and 2^width given. */
  function Extract(container: nat, lsbPower: nat, widthPower: nat): (r: nat)
    requires 0 < lsbPower && 0 < widthPower
    ensures r < widthPower
  {
    container / lsbPower % widthPower
  }

  function Load2(src: seq<Byte>, i: nat): (r: nat)
    requires i + 1 < |src|
    ensures r < 0x10000
  {
    src[i] as int + 0x100 * src[i + 1] as int
  }

  /** One instruction: `len` opcode bytes, then `lit` literal bytes, then a match of `mat` bytes
      at distance `dist`; `checked` if the decoder tests that distance. */
  datatype Instr = Instr(len: nat, lit: nat, mat: nat, dist: nat, checked: bool)

  datatype Stop = EndOfStream | SourceTruncated | EndTruncated | UndefinedOpcode | BadDistance

  datatype Parsed = Work(instr: Instr) | End | Fail(why: Stop)

  /** The instruction at `pos`, where `d` is the distance in force. Apart from the end marker,
      an instruction counts only if a further byte follows it. */
  function Parse(src: seq<Byte>, pos: nat, d: nat): (p: Parsed)
    ensures p.Work? ==> 0 < p.instr.len && pos + p.instr.len + p.instr.lit < |src|
    ensures p.Work? ==> 2 * p.instr.mat <= 271 * p.instr.len
    ensures p.Work? && p.instr.checked ==> 0 < p.instr.mat && p.instr.lit <= 3
    ensures p.Work? && !p.instr.checked ==> p.instr.dist == d && (p.instr.lit == 0 || p.instr.mat == 0)
    ensures p.End? ==> pos + 8 <= |src|
    ensures p.Fail? ==> p.why in {SourceTruncated, EndTruncated, UndefinedOpcode}
  {
    if |src| <= pos then Fail(SourceTruncated) else
    var left, opc := |src| - pos, src[pos];
    match Classify(opc)
    case SmlD =>
      var lit, mat := Extract(opc, 64, 4), Extract(opc, 8, 8) + 3;
      if left <= 2 + lit then Fail(SourceTruncated)
      else Work(Instr(2, lit, mat, Extract(opc, 1, 8) * 0x100 + src[pos + 1], true))
    case MedD =>
      var lit := Extract(opc, 8, 4);
      if left <= 3 + lit then Fail(SourceTruncated)
      else
        var opc23 := Load2(src, pos + 1);
        Work(Instr(3, lit, Extract(opc, 1, 8) * 4 + Extract(opc23, 1, 4) + 3, Extract(opc23, 4, 0x4000), true))
    case LrgD =>
      var lit, mat := Extract(opc, 64, 4), Extract(opc, 8, 8) + 3;
      if left <= 3 + lit then Fail(SourceTruncated)
      else Work(Instr(3, lit, mat, Load2(src, pos + 1), true))
    case PreD =>
      var lit, mat := Extract(opc, 64, 4), Extract(opc, 8, 8) + 3;
      if left <= 1 + lit then Fail(SourceTruncated)
      else Work(Instr(1, lit, mat, d, true))
    case SmlM =>
      if left <= 1 then Fail(SourceTruncated)
      else Work(Instr(1, 0, Extract(opc, 1, 16), d, false))
    case LrgM =>
      if left <= 2 then Fail(SourceTruncated)
      else Work(Instr(2, 0, src[pos + 1] as int + 16, d, false))
    case SmlL =>
      var lit := Extract(opc, 1, 16);
      if left <= 1 + lit then Fail(SourceTruncated)
      else Work(Instr(1, lit, 0, d, false))
    case LrgL =>
      if left <= 2 then Fail(SourceTruncated)
      else
        var lit := src[pos + 1] as int + 16;
        if left <= 2 + lit then Fail(SourceTruncated)
        else Work(Instr(2, lit, 0, d, false))
    case Nop =>
      if left <= 1 then Fail(SourceTruncated)
      else Work(Instr(1, 0, 0, d, false))
    case Eos => if left < 8 then Fail(EndTruncated) else End
    case Udef => Fail(UndefinedOpcode)
  }

  // ----- matches

  /** Appends `m` bytes, each the one `d` places before it. */
  function CopyMatch(out: seq<Byte>, d: nat, m: nat): (r: seq<Byte>)
    requires 1 <= d <= |out|
    ensures |r| == |out| + m && out <= r
    decreases m
  {
    if m == 0 then out else CopyMatch(out + [out[|out| - d]], d, m - 1)
  }

  lemma CopyMatchNone(out: seq<Byte>, d: nat)
    requires 1 <= d <= |out|
    ensures CopyMatch(out, d, 0) == out
  {
  }

  lemma {:induction false} CopyMatchSplit(out: seq<Byte>, d: nat, a: nat, b: nat)
    requires 1 <= d <= |out|
    ensures CopyMatch(CopyMatch(out, d, a), d, b) == CopyMatch(out, d, a + b)
    decreases a
  {
    if a != 0 { CopyMatchSplit(out + [out[|out| - d]], d, a - 1, b); }
  }

  /** A match no longer than its distance is a plain copy. */
  lemma {:induction false} CopyMatchPlain(out: seq<Byte>, d: nat, m: nat)
    requires 1 <= d <= |out| && m <= d
    ensures CopyMatch(out, d, m) == out + out[|out| - d..|out| - d + m]
  {
    if m == 0 {
    } else {
      CopyMatchPlain(out, d, m - 1);
      CopyMatchSplit(out, d, m - 1, 1);
      var r := CopyMatch(out, d, m - 1);
      assert CopyMatch(r, d, 1) == r + [r[|r| - d]];
      assert r[|r| - d] == out[|out| - d + (m - 1)];
      assert out[|out| - d..|out| - d + m] == out[|out| - d..|out| - d + (m - 1)] + [out[|out| - d + (m - 1)]];
    }
  }

  /** Extending a match by a chunk no longer than its distance is a plain copy too. */
  lemma CopyMatchChunk(out: seq<Byte>, d: nat, i: nat, w: nat)
    requires 1 <= d <= |out| && w <= d
    ensures var r := CopyMatch(out, d, i); CopyMatch(out, d, i + w) == r + r[|r| - d..|r| - d + w]
  {
    CopyMatchPlain(CopyMatch(out, d, i), d, w);
    CopyMatchSplit(out, d, i, w);
  }

  /** A shorter match is a prefix of a longer one. */
  lemma CopyMatchPrefix(out: seq<Byte>, d: nat, m: nat, n: nat)
    requires 1 <= d <= |out| && m <= n
    ensures CopyMatch(out, d, n)[..|out| + m] == CopyMatch(out, d, m)
  {
    CopyMatchSplit(out, d, m, n - m);
  }

  /** What a match at distance 0 leaves: the bytes already there. */
  function Left(fill: seq<Byte>, at: nat, m: nat): (r: seq<Byte>)
    ensures |r| == m
  {
    seq(m, i requires 0 <= i < m => if at + i < |fill| then fill[at + i] else 0)
  }

  function Match(fill: seq<Byte>, out: seq<Byte>, d: nat, m: nat): (r: seq<Byte>)
    requires d <= |out|
    ensures |r| == |out| + m && out <= r
  {
    if d == 0 then out + Left(fill, |out|, m) else CopyMatch(out, d, m)
  }

  lemma MatchNone(fill: seq<Byte>, out: seq<Byte>, d: nat)
    requires d <= |out|
    ensures Match(fill, out, d, 0) == out
  {
  }

  lemma MatchSplit(fill: seq<Byte>, out: seq<Byte>, d: nat, a: nat, b: nat)
    requires d <= |out|
    ensures Match(fill, Match(fill, out, d, a), d, b) == Match(fill, out, d, a + b)
  {
    hide CopyMatch;
    if d != 0 { CopyMatchSplit(out, d, a, b); }
  }

  /** In a buffer that `fill` agrees with, the bytes left are those of the buffer. */
  lemma LeftInPlace(fill: seq<Byte>, out: seq<Byte>, whole: seq<Byte>)
    requires out <= whole <= fill
    ensures out + Left(fill, |out|, |whole| - |out|) == whole
  {
  }

  // ----- the machine

  /** Where decoding stands: `pos` in the source, the bytes out so far, what is left of the
      current instruction's literal and match, and the distance in force. */
  datatype State = State(pos: nat, out: seq<Byte>, lit: nat, mat: nat, dist: nat) {
    predicate Boundary() {
      lit == 0 && mat == 0
    }
  }

  /** What the decoder maintains about a suspended instruction. */
  predicate Coherent(src: seq<Byte>, s: State) {
    && s.pos <= |src|
    && (!s.Boundary() ==> s.pos + s.lit < |src|)
    && (s.lit == 0 || s.mat == 0 ==> s.dist <= |s.out|)
    && (s.lit != 0 && s.mat != 0 ==> s.lit <= 3)
  }

  datatype Move = Go(next: State) | Halt(why: Stop, at: State)

  /** Emits a literal and a match, or stops at `s`. */
  function Emit(src: seq<Byte>, fill: seq<Byte>, s: State, pos: nat, lit: nat, mat: nat, dist: nat, checked: bool): (r: Move)
    requires pos + lit <= |src| && (checked || dist <= |s.out|)
    ensures r.Go? ==> r.next == State(pos + lit, r.next.out, 0, 0, dist) && |r.next.out| == |s.out| + lit + mat && s.out <= r.next.out
    ensures r.Go? ==> dist <= |r.next.out|
    ensures r.Halt? ==> r == Halt(BadDistance, s)
  {
    var out := s.out + src[pos..pos + lit];
    if checked && (dist == 0 || |out| < dist) then Halt(BadDistance, s)
    else Go(State(pos + lit, Match(fill, out, dist, mat), 0, 0, dist))
  }

  /** The rest of a suspended instruction, or one whole instruction. */
  function Step(src: seq<Byte>, fill: seq<Byte>, s: State): (r: Move)
    requires Coherent(src, s)
    ensures r.Go? ==> Coherent(src, r.next) && r.next.Boundary() && s.out <= r.next.out
    ensures r.Go? ==> if s.Boundary() then s.pos < r.next.pos else s.pos <= r.next.pos
    ensures r.Halt? ==> r.at == s || (r.why == EndOfStream && r.at == s.(pos := s.pos + 8) && s.Boundary())
    ensures r.Halt? ==> s.pos <= r.at.pos <= |src|
  {
    if s.Boundary() then
      match Parse(src, s.pos, s.dist)
      case Work(i) => Emit(src, fill, s, s.pos + i.len, i.lit, i.mat, i.dist, i.checked)
      case End => Halt(EndOfStream, s.(pos := s.pos + 8))
      case Fail(why) => Halt(why, s)
    else
      Emit(src, fill, s, s.pos, s.lit, s.mat, s.dist, s.lit != 0 && s.mat != 0)
  }

  /** Continuing from the suspended state `t` comes to the same as `e`. */
  ghost predicate Resumes(src: seq<Byte>, fill: seq<Byte>, e: Move, t: State) {
    && Coherent(src, t)
    && match e
       case Go(next) => Step(src, fill, t) == e
       case Halt(why, at) => why == BadDistance && Step(src, fill, t) == Halt(BadDistance, t) && at.out <= t.out
  }

  /** Suspended after `k` bytes of the literal. */
  lemma ResumeInLiteral(src: seq<Byte>, fill: seq<Byte>, s: State, pos: nat, lit: nat, mat: nat, dist: nat, k: nat)
    requires pos + lit < |src| && k < lit && (mat != 0 ==> lit <= 3) && (mat == 0 ==> dist <= |s.out|)
    ensures Resumes(src, fill, Emit(src, fill, s, pos, lit, mat, dist, mat != 0),
                    State(pos + k, s.out + src[pos..pos + k], lit - k, mat, dist))
  {
    hide Match;
    assert s.out + src[pos..pos + k] + src[pos + k..pos + lit] == s.out + src[pos..pos + lit];
  }

  /** Suspended after the literal and `k` bytes of the match. */
  lemma ResumeInMatch(src: seq<Byte>, fill: seq<Byte>, s: State, pos: nat, lit: nat, mat: nat, dist: nat, checked: bool, k: nat)
    requires pos + lit < |src| && k < mat && dist <= |s.out| + lit && (if checked then 1 <= dist else dist <= |s.out|)
    ensures Resumes(src, fill, Emit(src, fill, s, pos, lit, mat, dist, checked),
                    State(pos + lit, Match(fill, s.out + src[pos..pos + lit], dist, k), 0, mat - k, dist))
  {
    hide Match;
    var out := s.out + src[pos..pos + lit];
    MatchSplit(fill, out, dist, k, mat - k);
    var t := State(pos + lit, Match(fill, out, dist, k), 0, mat - k, dist);
    assert t.out + src[t.pos..t.pos] == t.out;
  }

  datatype Final = Final(why: Stop, at: State)

  /** The whole decoding from `s`: why it stops and where. */
  function Run(src: seq<Byte>, fill: seq<Byte>, s: State): (f: Final)
    requires Coherent(src, s)
    decreases |src| - s.pos, if s.Boundary() then 0 else 1
  {
    match Step(src, fill, s)
    case Go(next) => Run(src, fill, next)
    case Halt(why, at) => Final(why, at)
  }

  /** Two runs end alike; where a bad distance is met, the second may be past the start of the instruction. */
  ghost predicate SameEnd(f: Final, g: Final) {
    f.why == g.why && if f.why == BadDistance then f.at.out <= g.at.out else f.at == g.at
  }

  lemma ResumeRun(src: seq<Byte>, fill: seq<Byte>, s: State, t: State)
    requires Coherent(src, s) && Resumes(src, fill, Step(src, fill, s), t)
    ensures SameEnd(Run(src, fill, s), Run(src, fill, t))
  {
  }

  lemma HaltRun(src: seq<Byte>, fill: seq<Byte>, s: State)
    requires Coherent(src, s) && Step(src, fill, s).Halt?
    ensures Run(src, fill, s) == Final(Step(src, fill, s).why, Step(src, fill, s).at)
  {
  }

  const START: State := State(0, [], 0, 0, 0)

  // ----- properties of runs

  /** `t` is one of the states that the run from `s` passes through. */
  ghost predicate Reaches(src: seq<Byte>, fill: seq<Byte>, s: State, t: State)
    requires Coherent(src, s)
    decreases |src| - s.pos, if s.Boundary() then 0 else 1
  {
    s == t || (Step(src, fill, s).Go? && Reaches(src, fill, Step(src, fill, s).next, t))
  }

  lemma ReachesSelf(src: seq<Byte>, fill: seq<Byte>, s: State)
    requires Coherent(src, s)
    ensures Reaches(src, fill, s, s)
  {
  }

  lemma {:induction false} ReachesStep(src: seq<Byte>, fill: seq<Byte>, s: State, t: State)
    requires Coherent(src, s) && Coherent(src, t) && Reaches(src, fill, s, t) && Step(src, fill, t).Go?
    ensures Reaches(src, fill, s, Step(src, fill, t).next)
    decreases |src| - s.pos, if s.Boundary() then 0 else 1
  {
    if s != t { ReachesStep(src, fill, Step(src, fill, s).next, t); }
  }

  /** Output is only ever appended to. */
  lemma {:induction false} RunExtends(src: seq<Byte>, fill: seq<Byte>, s: State)
    requires Coherent(src, s)
    ensures s.out <= Run(src, fill, s).at.out
    decreases |src| - s.pos, if s.Boundary() then 0 else 1
  {
    if Step(src, fill, s).Go? { RunExtends(src, fill, Step(src, fill, s).next); }
  }

  /** A run that reaches the end marker writes all that is pending. */
  lemma RunCompletes(src: seq<Byte>, fill: seq<Byte>, s: State)
    requires Coherent(src, s) && Run(src, fill, s).why == EndOfStream
    ensures |s.out| + s.lit + s.mat <= |Run(src, fill, s).at.out|
  {
    if !s.Boundary() { RunExtends(src, fill, Step(src, fill, s).next); } else { RunExtends(src, fill, s); }
  }

  /** Two source bytes never yield more than 271 output bytes. */
  lemma {:induction false} Expansion(src: seq<Byte>, fill: seq<Byte>, s: State, t: State)
    requires Coherent(src, s) && s.Boundary() && Reaches(src, fill, s, t)
    ensures s.pos <= t.pos && |s.out| <= |t.out|
    ensures 2 * (|t.out| - |s.out|) <= 271 * (t.pos - s.pos)
    decreases |src| - s.pos
  {
    if s != t { Expansion(src, fill, Step(src, fill, s).next, t); }
  }

  /** A run that will still meet the end marker has source left. */
  lemma RunNotAtEnd(src: seq<Byte>, fill: seq<Byte>, s: State)
    requires Coherent(src, s) && Run(src, fill, s).why == EndOfStream
    ensures s.pos < |src|
  {
  }

  /** States that differ in the bytes of their output at most. */
  predicate SameShape(s: State, t: State) {
    t == s.(out := t.out) && |t.out| == |s.out|
  }

  lemma StepShape(src: seq<Byte>, f: seq<Byte>, s: State, g: seq<Byte>, t: State)
    requires Coherent(src, s) && SameShape(s, t)
    ensures Coherent(src, t)
    ensures match Step(src, f, s)
            case Go(next) => Step(src, g, t).Go? && SameShape(next, Step(src, g, t).next)
            case Halt(why, at) => Step(src, g, t).Halt? && Step(src, g, t).why == why && SameShape(at, Step(src, g, t).at)
  {
    hide Parse, Match;
  }

  /** Where and why a run stops does not depend on the bytes of the output. */
  lemma {:induction false} RunShape(src: seq<Byte>, f: seq<Byte>, s: State, g: seq<Byte>, t: State)
    requires Coherent(src, s) && Coherent(src, t) && SameShape(s, t)
    ensures Run(src, f, s).why == Run(src, g, t).why && SameShape(Run(src, f, s).at, Run(src, g, t).at)
    decreases |src| - s.pos, if s.Boundary() then 0 else 1
  {
    hide Step;
    StepShape(src, f, s, g, t);
    if Step(src, f, s).Go? { RunShape(src, f, Step(src, f, s).next, g, Step(src, g, t).next); }
  }

  // ----- matches before any distance

  /** The length of the match that an instruction without a distance of its own asks for, or 0. */
  function Unguarded(src: seq<Byte>, pos: nat): (m: nat) {
    var p := Parse(src, pos, 0);
    if p.Work? && !p.instr.checked then p.instr.mat else 0
  }

  /** The next instruction with a match, from `pos` on, has no distance of its own: nothing but literals
      and padding comes before it. */
  predicate MatchFirst(src: seq<Byte>, pos: nat)
    decreases |src| - pos
  {
    var p := Parse(src, pos, 0);
    p.Work? && !p.instr.checked && (p.instr.mat != 0 || MatchFirst(src, pos + p.instr.len + p.instr.lit))
  }

  /** Once a distance is in force, or as long as no match asks for one, a step does not look at `fill`. */
  lemma StepFill(src: seq<Byte>, f: seq<Byte>, g: seq<Byte>, s: State)
    requires Coherent(src, s) && s.Boundary()
    requires s.dist != 0 || !(Parse(src, s.pos, 0).Work? && !Parse(src, s.pos, 0).instr.checked && Parse(src, s.pos, 0).instr.mat != 0)
    ensures Step(src, f, s) == Step(src, g, s)
    ensures Step(src, f, s).Go? && Step(src, f, s).next.dist == 0 ==>
      s.dist == 0 && Step(src, f, s).next.pos == s.pos + Parse(src, s.pos, 0).instr.len + Parse(src, s.pos, 0).instr.lit
      && !Parse(src, s.pos, 0).instr.checked
  {
  }

  lemma {:induction false} RunFill(src: seq<Byte>, f: seq<Byte>, g: seq<Byte>, s: State)
    requires Coherent(src, s) && s.Boundary() && (s.dist != 0 || !MatchFirst(src, s.pos))
    ensures Run(src, f, s) == Run(src, g, s)
    decreases |src| - s.pos
  {
    hide Parse, Emit;
    StepFill(src, f, g, s);
    if Step(src, f, s).Go? { RunFill(src, f, g, Step(src, f, s).next); }
  }

  /** A run that meets such a match shows what was in the buffer: here a buffer of ones, longer than what can
      come before the match, against one of zeros. */
  lemma {:induction false} RunShowsFill(src: seq<Byte>, ones: seq<Byte>, s: State)
    requires Coherent(src, s) && s.Boundary() && s.dist == 0 && MatchFirst(src, s.pos)
    requires |s.out| + |src| - s.pos < |ones| && forall i :: 0 <= i < |ones| ==> ones[i] == 1
    ensures Run(src, [], s).at.out != Run(src, ones, s).at.out
    decreases |src| - s.pos
  {
    hide Parse;
    var a, b, n := Step(src, [], s).next, Step(src, ones, s).next, |s.out|;
    if Parse(src, s.pos, 0).instr.mat != 0 {
      assert s.out + src[a.pos..a.pos] == s.out;
      assert a.out[n] == 0 && b.out[n] == 1;
      RunExtends(src, [], a);
      RunExtends(src, ones, b);
    } else {
      StepFill(src, [], ones, s);
      RunShowsFill(src, ones, a);
    }
  }

  /** What a stream means depends on the stream alone exactly if no match comes before the first distance. */
  lemma FillMatters(src: seq<Byte>)
    ensures (forall f: seq<Byte>, g: seq<Byte> :: Run(src, f, START) == Run(src, g, START)) <==> !MatchFirst(src, 0)
  {
    hide Run, MatchFirst;
    if MatchFirst(src, 0) {
      RunShowsFill(src, seq(|src| + 1, _ => 1), START);
    } else {
      forall f: seq<Byte>, g: seq<Byte>
        ensures Run(src, f, START) == Run(src, g, START)
      {
        RunFill(src, f, g, START);
      }
    }
  }
}
