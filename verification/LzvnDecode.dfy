/**
 The decoder of lzvn.c, working in place on the destination buffer, with its wide copies
 and with the state it saves when the destination is full.
 */
module LzvnDecode {
  import opened LzvnSpec

  datatype Phase = Continue | Filled | Rejected

  datatype Outcome = Idle | Suspended | Halted(stop: Stop)

  /** The state `cur` between two instructions is on the run from `s`; unless it is the first, the instruction
      before it started in state `before`. */
  ghost predicate OnRun(src: seq<Byte>, fill: seq<Byte>, s: State, before: State, cur: State, first: bool)
    requires Coherent(src, s) && Coherent(src, cur)
  {
    && Run(src, fill, cur) == Run(src, fill, s) && Reaches(src, fill, s, cur)
    && (!first ==> Coherent(src, before) && Reaches(src, fill, s, before) && Step(src, fill, before) == Go(cur))
  }

  lemma OnRunNext(src: seq<Byte>, fill: seq<Byte>, s: State, before: State, cur: State, first: bool, next: State)
    requires Coherent(src, s) && Coherent(src, cur) && OnRun(src, fill, s, before, cur, first) && Step(src, fill, cur) == Go(next)
    ensures OnRun(src, fill, s, cur, next, false)
  {
    ReachesStep(src, fill, s, cur);
  }

  /** What one call promises: it started in state `s` and left state `t`. */
  ghost predicate CallCorrect(src: seq<Byte>, fill: seq<Byte>, why: Outcome, s: State, t: State)
    requires Coherent(src, s) && Coherent(src, t)
  {
    var f := Run(src, fill, s);
    match why
    case Idle => t == s
    case Suspended => SameEnd(f, Run(src, fill, t))
    case Halted(stop) =>
      && stop == f.why
      && (stop == EndOfStream ==> t == f.at)
      && (stop == SourceTruncated || (s.Boundary() && stop == BadDistance) ==> t == f.at && Reaches(src, fill, s, t))
      && (s.Boundary() && stop in {UndefinedOpcode, EndTruncated} ==>
            Reaches(src, fill, s, t) && (t == f.at == s || Step(src, fill, t) == Go(f.at)))
  }

  /** A call that ends at the instruction that starts in state `cur`. */
  lemma EndCorrect(src: seq<Byte>, fill: seq<Byte>, why: Outcome, s: State, before: State, cur: State, first: bool, t: State)
    requires Coherent(src, s) && Coherent(src, cur) && Coherent(src, t) && cur.Boundary()
    requires OnRun(src, fill, s, before, cur, first) && (first && s.Boundary() ==> cur == s == before)
    requires match why
             case Idle => false
             case Suspended => Resumes(src, fill, Step(src, fill, cur), t)
             case Halted(stop) =>
               && Step(src, fill, cur) == Halt(stop, if stop == EndOfStream then t else cur)
               && (stop in {SourceTruncated, BadDistance} ==> t == cur)
               && (stop in {UndefinedOpcode, EndTruncated} ==> t == before)
    ensures CallCorrect(src, fill, why, s, t)
  {
    hide Step, Run, Reaches, Resumes;
    if Step(src, fill, cur).Halt? { HaltRun(src, fill, cur); }
    if why == Suspended { ResumeRun(src, fill, cur, t); }
  }

  /** The state before the last instruction that was carried out, on a run that stops in state `at`. */
  ghost predicate LastGood(src: seq<Byte>, fill: seq<Byte>, t: State, at: State) {
    && Coherent(src, t) && Reaches(src, fill, START, t)
    && (t == at == START || Step(src, fill, t) == Go(at))
  }

  /** How many bytes count as decoded into a buffer of `size` bytes, for a run that ends as `f`. An undefined opcode
      and a cut off end marker take back the last instruction, a cut off instruction does not. */
  ghost predicate Counted(src: seq<Byte>, fill: seq<Byte>, f: Final, size: nat, n: nat) {
    match f.why
    case EndOfStream => n == if |f.at.out| < size then |f.at.out| else size
    case SourceTruncated => n == if |f.at.out| < size then |f.at.out| else size
    case BadDistance => n == size || n == |f.at.out|
    case _ => n == size <= |f.at.out| || exists t :: LastGood(src, fill, t, f.at) && n == |t.out|
  }

  class Decoder {
    const src: seq<Byte>
    const dst: array<Byte>
    var srcPos: nat
    var dstPos: nat
    var dstEnd: nat
    var L: nat
    var M: nat
    var D: nat
    var dPrev: nat
    var endOfStream: bool

    /** Where decoding stands, in the terms of the reference machine. */
    ghost function Logical(): (s: State)
      requires dstPos <= dst.Length
      reads this, dst
    {
      State(srcPos, dst[..dstPos], L, M, if L == 0 && M == 0 then dPrev else D)
    }

    ghost predicate Valid()
      reads this, dst
    {
      dstPos <= dstEnd <= dst.Length && dPrev <= dstPos && Coherent(src, Logical())
    }

    constructor (src: seq<Byte>, dst: array<Byte>)
      ensures this.src == src && this.dst == dst
      ensures Valid() && Logical() == START && dstEnd == dst.Length && !endOfStream
    {
      this.src, this.dst := src, dst;
      srcPos, dstPos, dstEnd := 0, 0, dst.Length;
      L, M, D, dPrev := 0, 0, 0, 0;
      endOfStream := false;
    }

    // ----- copies

    /** Stores a few bytes at once, as store4 and store8 do. */
    method Store(at: nat, bytes: seq<Byte>)
      requires at + |bytes| <= dst.Length
      modifies dst
      ensures dst[..at + |bytes|] == old(dst[..at]) + bytes
      ensures dst[at + |bytes|..] == old(dst[at + |bytes|..])
    {
      forall i | 0 <= i < |bytes| {
        dst[at + i] := bytes[i];
      }
    }

    method CopyLiteralBytes(srcPtr: nat, dstPtr: nat, n: nat)
      requires srcPtr + n <= |src| && dstPtr + n <= dst.Length
      modifies dst
      ensures dst[..dstPtr + n] == old(dst[..dstPtr]) + src[srcPtr..srcPtr + n]
      ensures forall i :: dstPtr + n <= i < dst.Length ==> dst[i] == old(dst[i])
    {
      var i := 0;
      while i < n
        invariant 0 <= i <= n
        invariant dst[..dstPtr + i] == old(dst[..dstPtr]) + src[srcPtr..srcPtr + i]
        invariant forall j :: dstPtr + i <= j < dst.Length ==> dst[j] == old(dst[j])
      {
        dst[dstPtr + i] := src[srcPtr + i];
        i := i + 1;
      }
    }

    /** Eight bytes at a time, up to seven past the end. */
    method CopyLiteralWide(srcPtr: nat, dstPtr: nat, n: nat)
      requires srcPtr + n + 7 <= |src| && dstPtr + n + 7 <= dst.Length
      modifies dst
      ensures dst[..dstPtr + n] == old(dst[..dstPtr]) + src[srcPtr..srcPtr + n]
      ensures forall i :: dstPtr + n + 7 <= i < dst.Length ==> dst[i] == old(dst[i])
    {
      var i := 0;
      while i < n
        invariant 0 <= i <= n + 7
        invariant dst[..dstPtr + i] == old(dst[..dstPtr]) + src[srcPtr..srcPtr + i]
        invariant forall j :: dstPtr + n + 7 <= j < dst.Length ==> dst[j] == old(dst[j])
      {
        Store(dstPtr + i, src[srcPtr + i..srcPtr + i + 8]);
        assert src[srcPtr..srcPtr + i + 8] == src[srcPtr..srcPtr + i] + src[srcPtr + i..srcPtr + i + 8];
        i := i + 8;
      }
      assert dst[..dstPtr + n] == dst[..dstPtr + i][..dstPtr + n];
    }

    method CopyMatchBytes(dstPtr: nat, n: nat, d: nat)
      requires d <= dstPtr && dstPtr + n <= dst.Length
      modifies dst
      ensures 0 < d ==> dst[..dstPtr + n] == CopyMatch(old(dst[..dstPtr]), d, n)
      ensures d == 0 ==> dst[..] == old(dst[..])
      ensures dst[..dstPtr] == old(dst[..dstPtr])
      ensures forall i :: dstPtr + n <= i < dst.Length ==> dst[i] == old(dst[i])
    {
      ghost var out := dst[..dstPtr];
      var i := 0;
      while i < n
        invariant 0 <= i <= n
        invariant 0 < d ==> dst[..dstPtr + i] == CopyMatch(out, d, i)
        invariant dst[..dstPtr] == out && (d == 0 ==> dst[..] == old(dst[..]))
        invariant forall j :: dstPtr + i <= j < dst.Length ==> dst[j] == old(dst[j])
      {
        ghost var before := dst[..dstPtr + i];
        dst[dstPtr + i] := dst[dstPtr + i - d];
        if 0 < d {
          CopyMatchSplit(out, d, i, 1);
          assert CopyMatch(before, d, 1) == before + [before[|before| - d]];
          assert dst[..dstPtr + i + 1] == before + [before[|before| - d]];
        }
        i := i + 1;
      }
    }

    /** Eight bytes at a time; sound because the distance is at least eight. */
    method CopyMatchWide(dstPtr: nat, n: nat, d: nat)
      requires 8 <= d <= dstPtr && dstPtr + n + 7 <= dst.Length
      modifies dst
      ensures dst[..dstPtr + n] == CopyMatch(old(dst[..dstPtr]), d, n)
      ensures forall i :: dstPtr + n + 7 <= i < dst.Length ==> dst[i] == old(dst[i])
    {
      hide CopyMatch;
      ghost var out := dst[..dstPtr];
      var i := 0;
      assert dst[..dstPtr + i] == CopyMatch(out, d, i) by { CopyMatchNone(out, d); }
      while i < n
        invariant 0 <= i <= n + 7
        invariant dst[..dstPtr + i] == CopyMatch(out, d, i)
        invariant forall j :: dstPtr + n + 7 <= j < dst.Length ==> dst[j] == old(dst[j])
      {
        ghost var before := dst[..dstPtr + i];
        var chunk := dst[dstPtr + i - d..dstPtr + i - d + 8];
        assert chunk == before[|before| - d..|before| - d + 8];
        Store(dstPtr + i, chunk);
        CopyMatchChunk(out, d, i, 8);
        i := i + 8;
      }
      CopyMatchPrefix(out, d, n, i);
      assert dst[..dstPtr + n] == dst[..dstPtr + i][..dstPtr + n];
    }

    // ----- the shared code of the opcodes

    /** From label copy_match: the match, or as much of it as fits. */
    method EmitMatch(srcPtr: nat, dstPtr: nat, m: nat, d: nat) returns (phase: Phase, newDst: nat)
      requires dstPtr <= dstEnd <= dst.Length && d <= dstPtr && 0 < m && srcPtr < |src| && dPrev <= dstPtr
      modifies this, dst
      ensures dstEnd == old(dstEnd) && endOfStream == old(endOfStream) && dPrev == old(dPrev)
      ensures forall k :: 0 <= k < dstPtr || dstEnd <= k < dst.Length ==> dst[k] == old(dst[k])
      ensures phase == Continue || phase == Filled
      ensures d == 0 ==> dst[..] == old(dst[..])
      ensures phase == Continue ==>
        && newDst == dstPtr + m <= dstEnd
        && (0 < d ==> dst[..newDst] == CopyMatch(old(dst[..dstPtr]), d, m))
        && srcPos == old(srcPos) && dstPos == old(dstPos) && L == old(L) && M == old(M)
      ensures phase == Filled ==>
        && srcPos == srcPtr && newDst == dstPos == dstEnd < dstPtr + m
        && L == 0 && M == dstPtr + m - dstEnd && D == d
        && (0 < d ==> dst[..dstEnd] == CopyMatch(old(dst[..dstPtr]), d, dstEnd - dstPtr))
    {
      hide CopyMatch;
      var dstLen := dstEnd - dstPtr;
      if m + 7 <= dstLen && 8 <= d {
        ghost var out := dst[..dstPtr];
        CopyMatchWide(dstPtr, m, d);
        assert dst[..dstPtr] == dst[..dstPtr + m][..dstPtr];
      } else if m <= dstLen {
        CopyMatchBytes(dstPtr, m, d);
      } else {
        CopyMatchBytes(dstPtr, dstLen, d);
        srcPos := srcPtr;
        dstPos := dstPtr + dstLen;
        L := 0;
        M := m - dstLen;
        D := d;
        return Filled, dstPos;
      }
      return Continue, dstPtr + m;
    }

    /** The literal of copy_literal_and_match: at most three bytes, copied as four if there is room. */
    method EmitShortLiteral(srcPtr: nat, dstPtr: nat, l: nat, m: nat, d: nat) returns (phase: Phase)
      requires dstPtr <= dstEnd <= dst.Length && dPrev <= dstPtr && l <= 3 && srcPtr + l < |src|
      modifies this, dst
      ensures dstEnd == old(dstEnd) && endOfStream == old(endOfStream) && dPrev == old(dPrev)
      ensures forall k :: 0 <= k < dstPtr || dstEnd <= k < dst.Length ==> dst[k] == old(dst[k])
      ensures phase == Continue || phase == Filled
      ensures phase == Continue ==>
        && dstPtr + l <= dstEnd
        && dst[..dstPtr + l] == old(dst[..dstPtr]) + src[srcPtr..srcPtr + l]
        && srcPos == old(srcPos) && dstPos == old(dstPos) && L == old(L) && M == old(M)
      ensures phase == Filled ==>
        && dstPos == dstEnd < dstPtr + l && srcPos == srcPtr + (dstEnd - dstPtr)
        && L == dstPtr + l - dstEnd && M == m && D == d
        && dst[..dstEnd] == old(dst[..dstPtr]) + src[srcPtr..srcPos]
    {
      var dstLen := dstEnd - dstPtr;
      if 4 <= dstLen && 4 <= |src| - srcPtr {
        ghost var out := dst[..dstPtr];
        Store(dstPtr, src[srcPtr..srcPtr + 4]);
        assert dst[..dstPtr + 4] == out + src[srcPtr..srcPtr + 4];
        assert dst[..dstPtr + l] == dst[..dstPtr + 4][..dstPtr + l];
      } else if l <= dstLen {
        CopyLiteralBytes(srcPtr, dstPtr, l);
      } else {
        CopyLiteralBytes(srcPtr, dstPtr, dstLen);
        srcPos := srcPtr + dstLen;
        dstPos := dstPtr + dstLen;
        L := l - dstLen;
        M := m;
        D := d;
        return Filled;
      }
      return Continue;
    }

    /** From label copy_literal: a literal with no match. */
    method EmitLiteral(srcPtr: nat, dstPtr: nat, l: nat, d: nat) returns (phase: Phase)
      requires dstPtr <= dstEnd <= dst.Length && dPrev <= dstPtr && 0 < l && srcPtr + l < |src|
      modifies this, dst
      ensures dstEnd == old(dstEnd) && endOfStream == old(endOfStream) && dPrev == old(dPrev)
      ensures forall k :: 0 <= k < dstPtr || dstEnd <= k < dst.Length ==> dst[k] == old(dst[k])
      ensures phase == Continue || phase == Filled
      ensures phase == Continue ==>
        && dstPtr + l <= dstEnd
        && dst[..dstPtr + l] == old(dst[..dstPtr]) + src[srcPtr..srcPtr + l]
        && srcPos == old(srcPos) && dstPos == old(dstPos) && L == old(L) && M == old(M)
      ensures phase == Filled ==>
        && dstPos == dstEnd < dstPtr + l && srcPos == srcPtr + (dstEnd - dstPtr)
        && L == dstPtr + l - dstEnd && M == 0 && D == d
        && dst[..dstEnd] == old(dst[..dstPtr]) + src[srcPtr..srcPos]
    {
      var dstLen := dstEnd - dstPtr;
      if l + 7 <= dstLen && l + 7 <= |src| - srcPtr {
        CopyLiteralWide(srcPtr, dstPtr, l);
      } else if l <= dstLen {
        CopyLiteralBytes(srcPtr, dstPtr, l);
      } else {
        CopyLiteralBytes(srcPtr, dstPtr, dstLen);
        srcPos := srcPtr + dstLen;
        dstPos := dstPtr + dstLen;
        L := l - dstLen;
        M := 0;
        D := d;
        return Filled;
      }
      return Continue;
    }

    /** The buffer up to where an instruction got. */
    ghost function Shown(phase: Phase, newDst: nat): (r: seq<Byte>)
      requires newDst <= dstEnd <= dst.Length
      reads this, dst
    {
      if phase == Filled then dst[..dstEnd] else dst[..newDst]
    }

    /** Where an instruction got, from `srcPtr` and `dstPtr`. */
    ghost predicate Progress(phase: Phase, srcPtr: nat, dstPtr: nat, l: nat, m: nat, d: nat, newDst: nat)
      reads this, dst
    {
      && newDst <= dstEnd <= dst.Length
      && match phase
         case Continue => newDst == dstPtr + l + m && d <= newDst
         case Rejected => newDst == dstPtr
         case Filled =>
           && Valid() && dstPos == dstEnd && !Logical().Boundary()
           && srcPtr <= srcPos && dstPos - dstPtr <= srcPos - srcPtr + m
    }

    /** What is true of the buffer and the saved state after an instruction that the reference answers with `e`. */
    ghost predicate Explains(fill: seq<Byte>, e: Move, s: State, phase: Phase, newSrc: nat, d: nat, newDst: nat)
      requires newDst <= dst.Length && dstPos <= dst.Length
      reads this, dst
    {
      match phase
      case Continue => e == Go(State(newSrc, dst[..newDst], 0, 0, d))
      case Rejected => e == Halt(BadDistance, s)
      case Filled => Resumes(src, fill, e, Logical())
    }

    /** From label copy_literal_and_match. */
    method CopyLiteralAndMatch(srcPtr: nat, dstPtr: nat, l: nat, m: nat, d: nat, ghost s: State) returns (phase: Phase, newDst: nat)
      requires dstPos <= dstPtr <= dstEnd <= dst.Length && dPrev <= dstPtr && srcPtr + l < |src| && s.out == dst[..dstPtr]
      requires l <= 3 && 0 < m
      modifies this, dst
      ensures dstEnd == old(dstEnd) && endOfStream == old(endOfStream) && dPrev == old(dPrev)
      ensures forall k :: 0 <= k < dstPtr || dstEnd <= k < dst.Length ==> dst[k] == old(dst[k])
      ensures phase != Filled ==> srcPos == old(srcPos) && dstPos == old(dstPos) && L == old(L) && M == old(M)
      ensures Progress(phase, srcPtr, dstPtr, l, m, d, newDst)
      ensures forall fill :: Explains(fill, Emit(src, fill, s, srcPtr, l, m, d, true), s, phase, srcPtr + l, d, newDst)
    {
      hide Match, Resumes, Emit;
      newDst := dstPtr;
      phase := EmitShortLiteral(srcPtr, dstPtr, l, m, d);
      if phase == Filled {
        forall fill
          ensures Resumes(src, fill, Emit(src, fill, s, srcPtr, l, m, d, true), Logical())
        {
          ResumeInLiteral(src, fill, s, srcPtr, l, m, d, dstEnd - dstPtr);
        }
        return;
      }
      phase, newDst := CopyCheckedMatch(srcPtr, dstPtr, l, m, d, s);
    }

    /** The match of copy_literal_and_match, after its literal. */
    method CopyCheckedMatch(srcPtr: nat, dstPtr: nat, l: nat, m: nat, d: nat, ghost s: State) returns (phase: Phase, newDst: nat)
      requires dstPos <= dstPtr && dstPtr + l <= dstEnd <= dst.Length && dPrev <= dstPtr == |s.out| && srcPtr + l < |src| && 0 < m
      requires dst[..dstPtr + l] == s.out + src[srcPtr..srcPtr + l]
      modifies this, dst
      ensures dstEnd == old(dstEnd) && endOfStream == old(endOfStream) && dPrev == old(dPrev)
      ensures forall k :: 0 <= k < dstPtr + l || dstEnd <= k < dst.Length ==> dst[k] == old(dst[k])
      ensures phase != Filled ==> srcPos == old(srcPos) && dstPos == old(dstPos) && L == old(L) && M == old(M)
      ensures Progress(phase, srcPtr, dstPtr, l, m, d, newDst)
      ensures forall fill :: Explains(fill, Emit(src, fill, s, srcPtr, l, m, d, true), s, phase, srcPtr + l, d, newDst)
    {
      hide Resumes, CopyMatch;
      newDst := dstPtr;
      if d > dstPtr + l || d == 0 {
        return Rejected, newDst;
      }
      phase, newDst := EmitMatch(srcPtr + l, dstPtr + l, m, d);
      if phase == Filled {
        forall fill
          ensures Resumes(src, fill, Emit(src, fill, s, srcPtr, l, m, d, true), Logical())
        {
          ResumeInMatch(src, fill, s, srcPtr, l, m, d, true, dstEnd - dstPtr - l);
        }
      }
    }

    /** From label copy_literal. */
    method CopyLiteral(srcPtr: nat, dstPtr: nat, l: nat, d: nat, ghost s: State) returns (phase: Phase, newDst: nat)
      requires dstPos <= dstPtr <= dstEnd <= dst.Length && dPrev <= dstPtr && srcPtr + l < |src| && s.out == dst[..dstPtr]
      requires 0 < l && d <= dstPtr
      modifies this, dst
      ensures dstEnd == old(dstEnd) && endOfStream == old(endOfStream) && dPrev == old(dPrev)
      ensures forall k :: 0 <= k < dstPtr || dstEnd <= k < dst.Length ==> dst[k] == old(dst[k])
      ensures phase != Filled ==> srcPos == old(srcPos) && dstPos == old(dstPos) && L == old(L) && M == old(M)
      ensures phase != Rejected && Progress(phase, srcPtr, dstPtr, l, 0, d, newDst)
      ensures forall fill :: Explains(fill, Emit(src, fill, s, srcPtr, l, 0, d, false), s, phase, srcPtr + l, d, newDst)
    {
      hide Resumes, CopyMatch;
      phase := EmitLiteral(srcPtr, dstPtr, l, d);
      if phase == Filled {
        newDst := dstPtr;
        forall fill
          ensures Resumes(src, fill, Emit(src, fill, s, srcPtr, l, 0, d, false), Logical())
        {
          ResumeInLiteral(src, fill, s, srcPtr, l, 0, d, dstEnd - dstPtr);
        }
        return;
      }
      newDst := dstPtr + l;
      forall fill
        ensures Match(fill, dst[..newDst], d, 0) == dst[..newDst]
      {
        MatchNone(fill, dst[..newDst], d);
      }
    }

    /** From label copy_match. The distance may be 0 here, and the bytes of the buffer then stay. */
    method CopyMatchOnly(srcPtr: nat, dstPtr: nat, m: nat, d: nat, ghost s: State) returns (phase: Phase, newDst: nat)
      requires dstPos <= dstPtr <= dstEnd <= dst.Length && dPrev <= dstPtr && srcPtr < |src| && s.out == dst[..dstPtr]
      requires 0 < m && d <= dstPtr
      modifies this, dst
      ensures dstEnd == old(dstEnd) && endOfStream == old(endOfStream) && dPrev == old(dPrev)
      ensures forall k :: 0 <= k < dstPtr || dstEnd <= k < dst.Length ==> dst[k] == old(dst[k])
      ensures d == 0 ==> dst[..] == old(dst[..])
      ensures phase != Filled ==> srcPos == old(srcPos) && dstPos == old(dstPos) && L == old(L) && M == old(M)
      ensures phase != Rejected && Progress(phase, srcPtr, dstPtr, 0, m, d, newDst)
      ensures forall fill | Shown(phase, newDst) <= fill ::
        Explains(fill, Emit(src, fill, s, srcPtr, 0, m, d, false), s, phase, srcPtr, d, newDst)
    {
      hide CopyMatch, Resumes;
      assert s.out + src[srcPtr..srcPtr] == s.out;
      phase, newDst := EmitMatch(srcPtr, dstPtr, m, d);
      forall fill | Shown(phase, newDst) <= fill
        ensures Explains(fill, Emit(src, fill, s, srcPtr, 0, m, d, false), s, phase, srcPtr, d, newDst)
      {
        LeftInPlace(fill, s.out, dst[..newDst]);
        if phase == Filled { ResumeInMatch(src, fill, s, srcPtr, 0, m, d, false, dstEnd - dstPtr); }
      }
    }

    /** One instruction after its opcode, or the rest of a suspended one; `s` is the state it starts from. */
    method Carry(srcPtr: nat, dstPtr: nat, l: nat, m: nat, d: nat, checked: bool, ghost s: State) returns (phase: Phase, newDst: nat)
      requires dstPos <= dstPtr <= dstEnd <= dst.Length && dPrev <= dstPtr && srcPtr + l < |src| && s.out == dst[..dstPtr]
      requires if checked then l <= 3 && 0 < m else d <= dstPtr && (l == 0 || m == 0)
      modifies this, dst
      ensures dstEnd == old(dstEnd) && endOfStream == old(endOfStream) && dPrev == old(dPrev)
      ensures forall k :: 0 <= k < dstPtr || dstEnd <= k < dst.Length ==> dst[k] == old(dst[k])
      ensures d == 0 && !checked && m != 0 ==> dst[..] == old(dst[..])
      ensures phase != Filled ==> srcPos == old(srcPos) && dstPos == old(dstPos) && L == old(L) && M == old(M)
      ensures (phase == Rejected ==> checked) && Progress(phase, srcPtr, dstPtr, l, m, d, newDst)
      ensures forall fill | Shown(phase, newDst) <= fill ::
        Explains(fill, Emit(src, fill, s, srcPtr, l, m, d, checked), s, phase, srcPtr + l, d, newDst)
    {
      hide Explains, Resumes, Match, Progress;
      if checked {
        phase, newDst := CopyLiteralAndMatch(srcPtr, dstPtr, l, m, d, s);
      } else if l != 0 {
        phase, newDst := CopyLiteral(srcPtr, dstPtr, l, d, s);
      } else if m != 0 {
        phase, newDst := CopyMatchOnly(srcPtr, dstPtr, m, d, s);
      } else {
        phase, newDst := CopyNothing(srcPtr, dstPtr, d, s);
      }
    }

    /** Padding. */
    method CopyNothing(srcPtr: nat, dstPtr: nat, d: nat, ghost s: State) returns (phase: Phase, newDst: nat)
      requires dstPos <= dstPtr <= dstEnd <= dst.Length && srcPtr < |src| && s.out == dst[..dstPtr] && d <= dstPtr
      ensures phase == Continue && Progress(phase, srcPtr, dstPtr, 0, 0, d, newDst)
      ensures forall fill :: Explains(fill, Emit(src, fill, s, srcPtr, 0, 0, d, false), s, phase, srcPtr, d, newDst)
    {
      hide CopyMatch;
      phase, newDst := Continue, dstPtr;
      assert s.out + src[srcPtr..srcPtr] == s.out;
      forall fill
        ensures Match(fill, s.out, d, 0) == s.out
      {
        MatchNone(fill, s.out, d);
      }
    }

    // ----- lzvn_decode

    /** UPDATE_GOOD: records the start of an instruction. */
    method UpdateGood(srcPtr: nat, dstPtr: nat, d: nat)
      requires srcPtr <= |src| && dstPtr <= dstEnd <= dst.Length && d <= dstPtr && L == M == 0
      modifies `srcPos, `dstPos, `dPrev
      ensures Valid() && Logical() == State(srcPtr, dst[..dstPtr], 0, 0, d)
    {
      srcPos, dstPos, dPrev := srcPtr, dstPtr, d;
    }

    /** How a call may end at an instruction that starts in state `cur`. */
    ghost predicate Ended(why: Outcome, cur: State, eos: bool)
      requires Coherent(src, cur) && cur.Boundary()
      reads this, dst
    {
      && Valid()
      && (endOfStream <==> eos || why == Halted(EndOfStream))
      && match why
         case Idle => false
         case Suspended =>
           && dstPos == dstEnd && !Logical().Boundary()
           && |cur.out| <= dstPos && cur.pos <= srcPos && 2 * (dstPos - |cur.out|) <= 271 * (srcPos - cur.pos)
           && forall fill | dst[..dstEnd] <= fill :: Resumes(src, fill, Step(src, fill, cur), Logical())
         case Halted(stop) =>
           && L == M == 0
           && (stop in {SourceTruncated, BadDistance} ==> Logical() == cur)
           && forall fill :: Step(src, fill, cur) == Halt(stop, if stop == EndOfStream then Logical() else cur)
    }

    /** An instruction that has been parsed. */
    method Execute(i: Instr, srcPtr: nat, dstPtr: nat, d: nat) returns (more: bool, newDst: nat, ghost why: Outcome)
      requires Valid() && L == M == 0 && dstPos <= dstPtr <= dstEnd && srcPtr < |src| && d <= dstPtr && Parse(src, srcPtr, d) == Work(i)
      modifies this, dst
      ensures Valid() && dstEnd == old(dstEnd)
      ensures forall k :: 0 <= k < dstPtr || dstEnd <= k < dst.Length ==> dst[k] == old(dst[k])
      ensures d == 0 && !i.checked && i.mat != 0 ==> dst[..] == old(dst[..])
      ensures more ==>
        && L == M == 0 && endOfStream == old(endOfStream)
        && newDst == dstPtr + i.lit + i.mat <= dstEnd && i.dist <= newDst && 2 * (newDst - dstPtr) <= 271 * (i.len + i.lit)
        && var cur := State(srcPtr, old(dst[..dstPtr]), 0, 0, d);
        && Logical() == cur
        && forall fill | dst[..newDst] <= fill ::
             Step(src, fill, cur) == Go(State(srcPtr + i.len + i.lit, dst[..newDst], 0, 0, i.dist))
      ensures !more ==> Ended(why, State(srcPtr, old(dst[..dstPtr]), 0, 0, d), old(endOfStream))
                        && (why == Suspended || (why == Halted(BadDistance) && i.checked))
                        && dstPtr <= dstPos && srcPtr <= srcPos && 2 * (dstPos - dstPtr) <= 271 * (srcPos - srcPtr)
    {
      hide Resumes, Match, Parse, Emit, Step, Explains;
      ghost var cur := State(srcPtr, dst[..dstPtr], 0, 0, d);
      UpdateGood(srcPtr, dstPtr, d);
      var phase;
      phase, newDst := Carry(srcPtr + i.len, dstPtr, i.lit, i.mat, i.dist, i.checked, cur);
      more := phase == Continue;
      why := if phase == Filled then Suspended else Halted(BadDistance);
      Executed(cur, i, srcPtr + i.len, phase, newDst);
    }

    /** What the shared code did, as a step of the reference. A distance is rejected whatever is in the buffer. */
    lemma Executed(cur: State, i: Instr, p: nat, phase: Phase, newDst: nat)
      requires Coherent(src, cur) && cur.Boundary() && Parse(src, cur.pos, cur.dist) == Work(i) && p == cur.pos + i.len
      requires newDst <= dstEnd <= dst.Length && dstPos <= dst.Length && (phase == Rejected ==> dst[..newDst] == cur.out)
      requires forall fill | Shown(phase, newDst) <= fill ::
        Explains(fill, Emit(src, fill, cur, p, i.lit, i.mat, i.dist, i.checked), cur, phase, p + i.lit, i.dist, newDst)
      ensures phase == Continue ==>
        forall fill | dst[..newDst] <= fill :: Step(src, fill, cur) == Go(State(p + i.lit, dst[..newDst], 0, 0, i.dist))
      ensures phase == Filled ==> forall fill | dst[..dstEnd] <= fill :: Resumes(src, fill, Step(src, fill, cur), Logical())
      ensures phase == Rejected ==> forall fill :: Step(src, fill, cur) == Halt(BadDistance, cur)
    {
      hide Parse, Match, Resumes;
      if phase == Rejected {
        assert Shown(phase, newDst) <= cur.out;
        assert Explains(cur.out, Emit(src, cur.out, cur, p, i.lit, i.mat, i.dist, i.checked), cur, phase, p + i.lit, i.dist, newDst);
      }
    }

    /** The bytes at the start that a match at distance 0 leaves, if `d` is 0 and such a match comes first. */
    function Kept(srcPtr: nat, d: nat): (k: nat) {
      if d == 0 then Unguarded(src, srcPtr) else 0
    }

    /** One instruction at `srcPtr`. `more` if decoding goes on; otherwise `why` says what ended the call. */
    method DecodeOne(srcPtr: nat, dstPtr: nat, d: nat)
      returns (more: bool, newSrc: nat, newDst: nat, newD: nat, ghost why: Outcome)
      requires Valid() && L == M == 0 && dstPos <= dstPtr <= dstEnd && srcPtr < |src| && d <= dstPtr
      modifies this, dst
      ensures Valid() && dstEnd == old(dstEnd)
      ensures forall k :: 0 <= k < dstPtr || dstEnd <= k < dst.Length ==> dst[k] == old(dst[k])
      ensures 0 < Kept(srcPtr, d) ==>
        dst[..] == old(dst[..]) && if more then newDst == dstPtr + Kept(srcPtr, d) else why == Suspended
      ensures more ==>
        && L == M == 0 && endOfStream == old(endOfStream)
        && srcPtr < newSrc < |src| && dstPtr <= newDst <= dstEnd && newD <= newDst
        && 2 * (newDst - dstPtr) <= 271 * (newSrc - srcPtr)
        && var cur := State(srcPtr, old(dst[..dstPtr]), 0, 0, d);
        && Logical() == cur
        && forall fill | dst[..newDst] <= fill :: Step(src, fill, cur) == Go(State(newSrc, dst[..newDst], 0, 0, newD))
      ensures !more ==> Ended(why, State(srcPtr, old(dst[..dstPtr]), 0, 0, d), old(endOfStream))
      ensures !more ==> why != Idle && (endOfStream <==> old(endOfStream) || why == Halted(EndOfStream))
      ensures !more ==> if why == Suspended then dstPos == dstEnd && !Logical().Boundary() else Logical().Boundary()
      ensures !more ==> if why in {Halted(UndefinedOpcode), Halted(EndTruncated)}
                        then srcPos == old(srcPos) && dstPos == old(dstPos) && dPrev == old(dPrev)
                        else dstPtr <= dstPos && srcPtr <= srcPos && 2 * (dstPos - dstPtr) <= 271 * (srcPos - srcPtr)
    {
      hide Resumes, Match, Parse, Emit;
      ghost var cur := State(srcPtr, dst[..dstPtr], 0, 0, d);
      newSrc, newDst, newD := srcPtr, dstPtr, d;
      match Parse(src, srcPtr, d) {
        case Fail(stop) =>
          if stop == SourceTruncated { UpdateGood(srcPtr, dstPtr, d); }
          return false, newSrc, newDst, newD, Halted(stop);
        case End =>
          endOfStream := true;
          UpdateGood(srcPtr + 8, dstPtr, d);
          return false, newSrc, newDst, newD, Halted(EndOfStream);
        case Work(i) =>
          more, newDst, why := Execute(i, srcPtr, dstPtr, d);
          newSrc, newD := srcPtr + i.len + i.lit, i.dist;
      }
    }

    /** What one call promises, given the state `s` it started from, for whatever lies beyond the buffer. */
    ghost predicate Correct(why: Outcome, s: State)
      requires Coherent(src, s)
      reads this, dst
    {
      Valid() && forall fill | dst[..dstEnd] <= fill :: CallCorrect(src, fill, why, s, Logical())
    }

    /** What holds between two instructions of a call that started in state `s`, now at state `cur`. */
    ghost predicate Between(s: State, cur: State, first: bool)
      requires Coherent(src, s)
      reads this, dst
    {
      && Valid() && L == M == 0 && Coherent(src, cur) && cur.Boundary() && dstPos <= |cur.out|
      && (first && s.Boundary() ==> cur == s == Logical())
      && forall fill | cur.out <= fill :: OnRun(src, fill, s, Logical(), cur, first)
    }

    /** The start of a call that finds a suspended instruction in the state. */
    method Resume() returns (more: bool, srcPtr: nat, dstPtr: nat, d: nat, ghost why: Outcome)
      requires Valid() && !Logical().Boundary()
      modifies this, dst
      ensures Valid() && dstEnd == old(dstEnd) && endOfStream == old(endOfStream) && old(dstPos) <= dstPos
      ensures forall i :: 0 <= i < old(dstPos) || dstEnd <= i < dst.Length ==> dst[i] == old(dst[i])
      ensures more ==>
        && srcPtr < |src| && old(dstPos) <= dstPtr <= dstEnd && dstPos == old(dstPos) && d <= dstPtr
        && Between(old(Logical()), State(srcPtr, dst[..dstPtr], 0, 0, d), true)
      ensures !more ==> why in {Suspended, Halted(BadDistance)} && Correct(why, old(Logical()))
      ensures why == Suspended ==> dstPos == dstEnd && !Logical().Boundary()
      ensures !more && why.Halted? ==> Logical().Boundary()
    {
      hide Match, Emit, Resumes, Explains, OnRun, CallCorrect;
      ghost var s := Logical();
      var l, m := L, M;
      d := D;
      L, M, D := 0, 0, 0;
      var checked := l != 0 && m != 0;
      srcPtr := srcPos + l;
      var phase;
      phase, dstPtr := Carry(srcPos, dstPos, l, m, d, checked, s);
      more, why := phase == Continue, if phase == Filled then Suspended else Halted(BadDistance);
      ghost var cur := State(srcPtr, dst[..dstPtr], 0, 0, d);
      forall fill | Shown(phase, dstPtr) <= fill
        ensures phase == Continue ==> Coherent(src, cur) && OnRun(src, fill, s, Logical(), cur, true)
        ensures phase != Continue ==> CallCorrect(src, fill, why, s, Logical())
      {
        Resumed(fill, s, checked, srcPtr, phase, dstPtr);
      }
    }

    /** What finishing a suspended instruction means for the run from it. */
    lemma Resumed(fill: seq<Byte>, s: State, checked: bool, newSrc: nat, phase: Phase, newDst: nat)
      requires Coherent(src, s) && !s.Boundary() && checked == (s.lit != 0 && s.mat != 0) && newSrc == s.pos + s.lit
      requires newDst <= dst.Length && dstPos <= dst.Length && Coherent(src, Logical())
      requires Explains(fill, Emit(src, fill, s, s.pos, s.lit, s.mat, s.dist, checked), s, phase, newSrc, s.dist, newDst)
      ensures phase == Continue ==>
        var cur := State(newSrc, dst[..newDst], 0, 0, s.dist);
        Coherent(src, cur) && OnRun(src, fill, s, Logical(), cur, true)
      ensures phase == Filled ==> CallCorrect(src, fill, Suspended, s, Logical())
      ensures phase == Rejected ==> CallCorrect(src, fill, Halted(BadDistance), s, Logical())
    {
      hide Match, Resumes, Emit;
      if phase == Filled { ResumeRun(src, fill, s, Logical()); }
      if phase == Continue { assert Reaches(src, fill, Step(src, fill, s).next, Step(src, fill, s).next); }
    }

    lemma BetweenStart()
      requires Valid() && L == M == 0
      ensures Between(Logical(), Logical(), true)
    {
    }

    /** A call that ends at the instruction in state `cur`. */
    lemma EndedCorrect(why: Outcome, s: State, before: State, cur: State, first: bool, eos: bool)
      requires Coherent(src, s) && Coherent(src, cur) && cur.Boundary() && Ended(why, cur, eos)
      requires first && s.Boundary() ==> cur == s == before
      requires why in {Halted(UndefinedOpcode), Halted(EndTruncated)} ==> Logical() == before
      requires forall fill | cur.out <= fill :: OnRun(src, fill, s, before, cur, first)
      requires cur.out <= dst[..dstEnd]
      ensures Correct(why, s)
    {
      hide Step, Run, Resumes, OnRun, CallCorrect;
      forall fill | dst[..dstEnd] <= fill
        ensures CallCorrect(src, fill, why, s, Logical())
      {
        assert cur.out <= fill;
        EndCorrect(src, fill, why, s, before, cur, first, Logical());
      }
    }

    /** The next instruction follows on the run. */
    lemma BetweenNext(s: State, before: State, was: State, first: bool, cur: State)
      requires Coherent(src, s) && Coherent(src, was)
      requires forall fill | was.out <= fill :: OnRun(src, fill, s, before, was, first)
      requires Valid() && L == M == 0 && Logical() == was
      requires Coherent(src, cur) && cur.Boundary() && dstPos <= |cur.out| && was.out <= cur.out
      requires forall fill | cur.out <= fill :: Step(src, fill, was) == Go(cur)
      ensures Between(s, cur, false)
    {
      hide Step, Run, OnRun;
      forall fill | cur.out <= fill
        ensures OnRun(src, fill, s, Logical(), cur, false)
      {
        assert was.out <= fill;
        OnRunNext(src, fill, s, before, was, first, cur);
      }
    }

    /** One turn of the instruction loop of a call that started in state `s`. */
    method Turn(srcPtr: nat, dstPtr: nat, d: nat, ghost s: State, ghost first: bool)
      returns (more: bool, newSrc: nat, newDst: nat, newD: nat, ghost why: Outcome)
      requires Coherent(src, s) && srcPtr < |src| && dstPtr <= dstEnd <= dst.Length && d <= dstPtr
      requires Between(s, State(srcPtr, dst[..dstPtr], 0, 0, d), first)
      modifies this, dst
      ensures Valid() && dstEnd == old(dstEnd)
      ensures forall k :: 0 <= k < dstPtr || dstEnd <= k < dst.Length ==> dst[k] == old(dst[k])
      ensures 0 < Kept(srcPtr, d) ==>
        dst[..] == old(dst[..]) && if more then newDst == dstPtr + Kept(srcPtr, d) else why == Suspended
      ensures more ==>
        && endOfStream == old(endOfStream) && srcPos == srcPtr && dstPos == dstPtr
        && srcPtr < newSrc < |src| && dstPtr <= newDst <= dstEnd && newD <= newDst
        && 2 * (newDst - dstPtr) <= 271 * (newSrc - srcPtr)
        && Between(s, State(newSrc, dst[..newDst], 0, 0, newD), false)
      ensures !more ==> Correct(why, s)
      ensures !more ==> why != Idle && (endOfStream <==> old(endOfStream) || why == Halted(EndOfStream))
      ensures !more ==> if why == Suspended then dstPos == dstEnd && !Logical().Boundary() else Logical().Boundary()
      ensures !more ==> if why in {Halted(UndefinedOpcode), Halted(EndTruncated)}
                        then srcPos == old(srcPos) && dstPos == old(dstPos)
                        else dstPtr <= dstPos && srcPtr <= srcPos && 2 * (dstPos - dstPtr) <= 271 * (srcPos - srcPtr)
    {
      hide Step, Run, OnRun, CallCorrect, Kept, Ended;
      ghost var before, was := Logical(), State(srcPtr, dst[..dstPtr], 0, 0, d);
      more, newSrc, newDst, newD, why := DecodeOne(srcPtr, dstPtr, d);
      if more {
        BetweenNext(s, before, was, first, State(newSrc, dst[..newDst], 0, 0, newD));
      } else {
        EndedCorrect(why, s, before, was, first, old(endOfStream));
      }
    }

    /** The instruction loop of a call that started in state `s` and is now between two instructions. */
    method DecodeFrom(srcPtr0: nat, dstPtr0: nat, d0: nat, ghost s: State) returns (ghost why: Outcome)
      requires Coherent(src, s) && srcPtr0 < |src| && dstPtr0 <= dstEnd <= dst.Length && d0 <= dstPtr0
      requires Between(s, State(srcPtr0, dst[..dstPtr0], 0, 0, d0), true)
      modifies this, dst
      ensures Valid() && dstEnd == old(dstEnd)
      ensures forall i :: 0 <= i < dstPtr0 + Kept(srcPtr0, d0) || dstEnd <= i < dst.Length ==> i < dst.Length ==> dst[i] == old(dst[i])
      ensures why != Idle && (why == Suspended ==> dstPos == dstEnd && !Logical().Boundary())
      ensures why.Halted? ==> Logical().Boundary()
      ensures endOfStream <==> old(endOfStream) || why == Halted(EndOfStream)
      ensures Correct(why, s)
      ensures (srcPos == old(srcPos) && dstPos == old(dstPos))
           || (dstPtr0 <= dstPos && 2 * (dstPos - dstPtr0) <= 271 * (srcPos - srcPtr0))
      ensures why in {Halted(UndefinedOpcode), Halted(EndTruncated)} || dstPos == dstEnd || dstPtr0 + Kept(srcPtr0, d0) <= dstPos
    {
      hide Run, OnRun, CallCorrect, Kept, Between, Correct;
      var srcPtr: nat, dstPtr: nat, d: nat := srcPtr0, dstPtr0, d0;
      ghost var first := true;
      while true
        invariant srcPtr < |src| && dstPtr0 <= dstPtr <= dstEnd == old(dstEnd) && d <= dstPtr
        invariant forall i :: 0 <= i < dstPtr0 + Kept(srcPtr0, d0) || dstEnd <= i < dst.Length ==> i < dst.Length ==> dst[i] == old(dst[i])
        invariant endOfStream == old(endOfStream)
        invariant Between(s, State(srcPtr, dst[..dstPtr], 0, 0, d), first)
        invariant 2 * (dstPtr - dstPtr0) <= 271 * (srcPtr - srcPtr0)
        invariant (srcPos == old(srcPos) && dstPos == old(dstPos))
               || (dstPtr0 <= dstPos && 2 * (dstPos - dstPtr0) <= 271 * (srcPos - srcPtr0))
        invariant if first then srcPtr == srcPtr0 && dstPtr == dstPtr0 && d == d0 else dstPtr0 + Kept(srcPtr0, d0) <= dstPtr
        decreases |src| - srcPtr
      {
        var more;
        more, srcPtr, dstPtr, d, why := Turn(srcPtr, dstPtr, d, s, first);
        if !more { return; }
        first := false;
      }
    }

    lemma IdleCorrect()
      requires Valid()
      ensures Correct(Idle, Logical())
    {
    }

    /** One call. The last two clauses are about a match without a distance at the start of a call: as far as there
        is room for it, the buffer keeps the bytes it had and they count as output. */
    method Decode() returns (ghost why: Outcome)
      requires Valid()
      modifies this, dst
      ensures Valid() && dstEnd == old(dstEnd) && old(dstPos) <= dstPos
      ensures forall i :: 0 <= i < old(dstPos) || dstEnd <= i < dst.Length ==> dst[i] == old(dst[i])
      ensures why == Idle <==> old(srcPos) == |src| || old(dstPos) == dstEnd
      ensures why == Suspended ==> dstPos == dstEnd && !Logical().Boundary()
      ensures why.Halted? ==> Logical().Boundary()
      ensures endOfStream <==> old(endOfStream) || why == Halted(EndOfStream)
      ensures Correct(why, old(Logical()))
      ensures old(Logical()).Boundary() ==> 2 * (dstPos - old(dstPos)) <= 271 * (srcPos - old(srcPos))
      ensures old(Logical()).Boundary() ==>
        forall i :: 0 <= i < old(dstPos) + Kept(old(srcPos), old(dPrev)) && i < dst.Length ==> dst[i] == old(dst[i])
      ensures old(Logical()).Boundary() && why !in {Idle, Halted(UndefinedOpcode), Halted(EndTruncated)} ==>
        dstPos == dstEnd || old(dstPos) + Kept(old(srcPos), old(dPrev)) <= dstPos
    {
      hide Step, Run, Resumes, Reaches, Parse, OnRun, CallCorrect, Unguarded;
      ghost var s := Logical();
      if srcPos == |src| || dstPos == dstEnd {
        IdleCorrect();
        return Idle;
      }
      var srcPtr: nat, dstPtr: nat, d: nat := srcPos, dstPos, dPrev;
      if L != 0 || M != 0 {
        var more;
        more, srcPtr, dstPtr, d, why := Resume();
        if !more { return; }
      } else {
        BetweenStart();
      }
      why := DecodeFrom(srcPtr, dstPtr, d, s);
    }

    /** After some calls: still on the run from `s`, or at its end. */
    ghost predicate Underway(s: State)
      requires Coherent(src, s)
      reads this, dst
    {
      && Valid()
      && forall fill | dst[..dstEnd] <= fill ::
           if endOfStream then Logical() == Run(src, fill, s).at else Run(src, fill, Logical()) == Run(src, fill, s)
    }

    /** What one more call, from state `t`, adds. */
    lemma StillUnderway(s: State, t: State, why: Outcome, before: seq<Byte>)
      requires Coherent(src, s) && Coherent(src, t) && Correct(why, t) && (forall fill :: Run(src, fill, t).why == EndOfStream)
      requires forall fill | before <= fill :: Run(src, fill, t) == Run(src, fill, s)
      requires before <= dst[..dstEnd] && (endOfStream <==> why == Halted(EndOfStream))
      ensures Underway(s)
    {
      hide Run;
      forall fill | dst[..dstEnd] <= fill
        ensures if endOfStream then Logical() == Run(src, fill, s).at else Run(src, fill, Logical()) == Run(src, fill, s)
      {
        assert before <= fill && CallCorrect(src, fill, why, t, Logical());
      }
    }

    /** How far a stream that ends properly gets, whatever the buffer holds. */
    lemma SameTotal(s: State, fill: seq<Byte>)
      requires Coherent(src, s)
      ensures Run(src, fill, s).why == Run(src, [], s).why && |Run(src, fill, s).at.out| == |Run(src, [], s).at.out|
    {
      RunShape(src, fill, s, [], s);
    }

    /** A state underway that is not at the end has output still to come; one at the end has all of it. */
    lemma UnderwayOutput(s: State)
      requires Coherent(src, s) && Underway(s) && Run(src, [], s).why == EndOfStream
      ensures var f := Run(src, dst[..], s);
        && Logical().out <= f.at.out && |f.at.out| == |Run(src, [], s).at.out|
        && (endOfStream ==> dstPos == |f.at.out|)
        && (!endOfStream ==> srcPos < |src| && dstPos + L + M <= |f.at.out|)
    {
      hide Run;
      SameTotal(s, dst[..]);
      assert dst[..dstEnd] <= dst[..];
      if !endOfStream {
        RunExtends(src, dst[..], Logical());
        RunCompletes(src, dst[..], Logical());
        RunNotAtEnd(src, dst[..], Logical());
      }
    }

    /** One more call with a higher limit: it fills the room up to the limit or ends the stream. */
    method DecodeUpTo(limit: nat, ghost s: State)
      requires Valid() && !endOfStream && dstPos <= limit <= dst.Length && Coherent(src, s) && Run(src, [], s).why == EndOfStream
      requires forall fill | dst[..dstPos] <= fill :: Run(src, fill, Logical()) == Run(src, fill, s)
      modifies this, dst
      ensures Underway(s) && dstEnd == limit && (!endOfStream ==> dstPos == limit)
      ensures !endOfStream ==> dstPos == old(dstPos) || L + M != 0
    {
      hide Run, CallCorrect;
      ghost var t, before := Logical(), dst[..dstPos];
      forall fill
        ensures Run(src, fill, t).why == EndOfStream
      {
        assert Run(src, before, t) == Run(src, before, s);
        SameTotal(s, before);
        RunShape(src, before, t, fill, t);
      }
      RunNotAtEnd(src, [], t);
      dstEnd := limit;
      ghost var why := Decode();
      if why.Halted? { assert CallCorrect(src, dst[..dstEnd], why, t, Logical()); HaltedSo(why, t); }
      StillUnderway(s, t, why, before);
    }

    lemma HaltedSo(why: Outcome, t: State)
      requires Coherent(src, t) && Valid() && CallCorrect(src, dst[..dstEnd], why, t, Logical()) && why.Halted?
      ensures why.stop == Run(src, dst[..dstEnd], t).why
    {
    }

    /** A caller that raises the destination limit step by step until the stream ends gets, at the last limit,
        exactly the bytes that one run without a limit writes up to there, and its final state if it has room. */
    method DecodeInSteps(limits: seq<nat>)
      requires Valid() && !endOfStream && Run(src, [], Logical()).why == EndOfStream
      requires limits != [] && dstPos <= limits[0] && limits[|limits| - 1] <= dst.Length
      requires forall i, j :: 0 <= i < j < |limits| ==> limits[i] <= limits[j]
      modifies this, dst
      ensures Valid()
      ensures var whole, last := Run(src, dst[..], old(Logical())).at, limits[|limits| - 1];
        && dstPos == (if |whole.out| < last then |whole.out| else last)
        && dst[..dstPos] == whole.out[..dstPos]
        && (|whole.out| < last || old(dstPos) < |whole.out| == last ==> endOfStream)
        && (endOfStream ==> Logical() == whole)
    {
      hide Run, Coherent;
      ghost var s, total := Logical(), |Run(src, [], Logical()).at.out|;
      for i := 0 to |limits|
        invariant Valid() && dstPos <= dst.Length
        invariant i == 0 ==> Logical() == s && !endOfStream
        invariant 0 < i ==> Underway(s) && dstEnd <= limits[i - 1]
        invariant 0 < i && !endOfStream ==> dstPos == dstEnd == limits[i - 1] <= total && (dstPos == |s.out| || dstPos < total)
        invariant endOfStream ==> dstPos == total <= dstEnd
      {
        if !endOfStream {
          DecodeUpTo(limits[i], s);
          UnderwayOutput(s);
        }
      }
      UnderwayOutput(s);
    }

    /** What a first call means for the returned byte count. */
    lemma FirstCall(why: Outcome)
      requires Correct(why, START) && dstEnd == dst.Length
      requires why == Idle ==> |src| == 0 || dstEnd == 0
      requires why == Suspended ==> dstPos == dstEnd && !Logical().Boundary()
      requires why.Halted? ==> Logical().Boundary()
      ensures var f := Run(src, dst[..], START);
        && Counted(src, dst[..], f, dst.Length, dstPos)
        && (dst[..dstPos] <= f.at.out || (f.why == BadDistance && f.at.out <= dst[..dstPos] && dstPos == dst.Length))
        && (dstPos < dst.Length ==> Logical().Boundary() && (Logical() == f.at || Reaches(src, dst[..], START, Logical())))
    {
      hide Run, Step, Reaches;
      assert dst[..dstEnd] <= dst[..];
      assert CallCorrect(src, dst[..], why, START, Logical());
      var f := Run(src, dst[..], START);
      RunExtends(src, dst[..], Logical());
      if f.why == EndOfStream {
        RunNotAtEnd(src, dst[..], START);
        if why == Suspended { RunCompletes(src, dst[..], Logical()); }
      }
      if why == Idle { ReachesSelf(src, dst[..], START); }
      if |src| == 0 { NothingToRun(src, dst[..]); }
      if why.Halted? && why.stop in {UndefinedOpcode, EndTruncated} && Logical() != f.at {
        StepExtends(src, dst[..], Logical());
      }
    }
  }

  lemma NothingToRun(src: seq<Byte>, fill: seq<Byte>)
    requires src == []
    ensures Run(src, fill, START) == Final(SourceTruncated, START)
  {
  }

  lemma StepExtends(src: seq<Byte>, fill: seq<Byte>, t: State)
    requires Coherent(src, t) && Step(src, fill, t).Go?
    ensures t.out <= Step(src, fill, t).next.out
  {
  }

  /** lzvn_decode_buffer. `dst[..]` in the reference run is the buffer as the call leaves it; it matters only where
      a match comes before any distance. */
  method DecodeBuffer(dst: array<Byte>, src: seq<Byte>) returns (n: nat)
    modifies dst
    ensures n <= dst.Length && 2 * n <= 271 * |src|
    ensures var f := Run(src, dst[..], START);
      && Counted(src, dst[..], f, dst.Length, n)
      && (dst[..n] <= f.at.out || (f.why == BadDistance && f.at.out <= dst[..n] && n == dst.Length))
      && (n < dst.Length ==> exists t: State :: t.Boundary() && dst[..n] == t.out && (t == f.at || Reaches(src, dst[..], START, t)))
    ensures forall i :: 0 <= i < Unguarded(src, 0) && i < dst.Length ==> dst[i] == old(dst[i])
    ensures Run(src, [], START).why !in {UndefinedOpcode, EndTruncated} ==> n == dst.Length || Unguarded(src, 0) <= n
  {
    hide Run, Reaches, CallCorrect;
    var d := new Decoder(src, dst);
    ghost var why := d.Decode();
    n := d.dstPos;
    d.FirstCall(why);
    d.SameTotal(START, dst[..]);
    assert dst[..n] == d.Logical().out;
    d.SameTotal(START, dst[..d.dstEnd]);
    if why.Halted? { d.HaltedSo(why, START); }
    if why == Idle { NothingUnguarded(src); }
  }

  lemma NothingUnguarded(src: seq<Byte>)
    ensures src == [] ==> Unguarded(src, 0) == 0
  {
  }

  /** The shortest stream with a match before any distance: one byte of output, and it is the byte that was there. */
  method EarlyMatchExample(dst: array<Byte>) returns (n: nat)
    requires 0 < dst.Length
    modifies dst
    ensures n == 1 && dst[0] == old(dst[0])
  {
    var src: seq<Byte> := [0xF1, 6, 0, 0, 0, 0, 0, 0, 0];
    EarlyMatchParse(src);
    EarlyMatchRun(src, []);
    n := DecodeBuffer(dst, src);
    EarlyMatchRun(src, dst[..]);
  }

  lemma EarlyMatchParse(src: seq<Byte>)
    requires src == [0xF1, 6, 0, 0, 0, 0, 0, 0, 0]
    ensures Parse(src, 0, 0) == Work(Instr(1, 0, 1, 0, false)) && Parse(src, 1, 0) == End
  {
  }

  lemma EarlyMatchRun(src: seq<Byte>, fill: seq<Byte>)
    requires 8 <= |src| && Parse(src, 0, 0) == Work(Instr(1, 0, 1, 0, false)) && Parse(src, 1, 0) == End
    ensures Unguarded(src, 0) == 1 && Run(src, fill, START).why == EndOfStream && |Run(src, fill, START).at.out| == 1
  {
    hide Parse, Match;
    HaltRun(src, fill, Step(src, fill, START).next);
  }
}
