/** The streaming implementation of sha256.c: a context that is updated in place. */
module Sha256 {
  import opened Sha256Spec
  import opened Sha256Words

  function RegistersOf(s: seq<bv32>): (r: Registers)
    requires |s| == 8
  {
    Registers(s[0], s[1], s[2], s[3], s[4], s[5], s[6], s[7])
  }

  /** Byte `t` of each output word is in place. */
  ghost predicate Column(hash: Bytes, state: seq<bv32>, t: nat)
    requires |hash| == 32 && |state| == 8 && t < 4
  {
    && hash[t] == WordByte(state[0], t) && hash[t + 4] == WordByte(state[1], t)
    && hash[t + 8] == WordByte(state[2], t) && hash[t + 12] == WordByte(state[3], t)
    && hash[t + 16] == WordByte(state[4], t) && hash[t + 20] == WordByte(state[5], t)
    && hash[t + 24] == WordByte(state[6], t) && hash[t + 28] == WordByte(state[7], t)
  }

  predicate InColumn(p: nat, t: nat) {
    p in {t, t + 4, t + 8, t + 12, t + 16, t + 20, t + 24, t + 28}
  }

  lemma ColumnsKept(before: Bytes, hash: Bytes, state: seq<bv32>, i: nat)
    requires |before| == |hash| == 32 && |state| == 8 && i < 4
    requires forall p :: 0 <= p < 32 && !InColumn(p, i) ==> hash[p] == before[p]
    ensures forall t :: 0 <= t < i && Column(before, state, t) ==> Column(hash, state, t)
  {
    hide WordByte;
    forall t | 0 <= t < i && Column(before, state, t)
      ensures Column(hash, state, t)
    {
      assert forall p :: 0 <= p < 32 && InColumn(p, t) ==> !InColumn(p, i);
    }
  }

  lemma DigestColumns(hash: Bytes, state: seq<bv32>)
    requires |hash| == 32 && |state| == 8 && forall t :: 0 <= t < 4 ==> Column(hash, state, t)
    ensures hash == DigestBytes(RegistersOf(state))
  {
    hide WordByte;
    forall p | 0 <= p < 32
      ensures hash[p] == DigestBytes(RegistersOf(state))[p]
    {
      assert Column(hash, state, p % 4);
    }
  }

  /** The 32-bit loop counter of sha256_update after `k` turns. */
  function Counter(k: nat): (i: nat) {
    k % 0x1_0000_0000
  }

  /** The loop ever ends exactly if the input is shorter than 2^32 bytes. */
  lemma UpdateEnds(length: nat)
    ensures (exists k: nat :: length <= Counter(k)) <==> length < 0x1_0000_0000
  {
    if length < 0x1_0000_0000 { assert Counter(length) == length; }
  }

  class Context {
    const data: array<bv8>
    var datalen: nat
    var bitlen: nat
    const state: array<bv32>
    ghost var blocks: Bytes

    ghost predicate Shaped()
      reads this
    {
      data.Length == 64 && state.Length == 8
    }

    /** The whole blocks of the message are in `state`, the rest of it in `data`. */
    ghost predicate Valid()
      reads this, data, state
    {
      && Shaped()
      && datalen < 64 && |blocks| % 64 == 0
      && RegistersOf(state[..]) == HashBlocks(blocks)
      && bitlen == BitLength(|blocks|)
    }

    /** All that was put in so far. */
    ghost function Message(): (r: Bytes)
      requires Shaped() && datalen <= 64
      reads this, data
    {
      blocks + data[..datalen]
    }

    constructor ()
      ensures Valid() && Message() == [] && fresh(data) && fresh(state)
    {
      data := new bv8[64];
      state := new bv32[8];
      new;
      Init();
    }

    method Init()
      requires Shaped()
      modifies this, state
      ensures Valid() && Message() == []
    {
      datalen := 0;
      bitlen := 0;
      state[0], state[1], state[2], state[3] := 0x6a09e667, 0xbb67ae85, 0x3c6ef372, 0xa54ff53a;
      state[4], state[5], state[6], state[7] := 0x510e527f, 0x9b05688c, 0x1f83d9ab, 0x5be0cd19;
      blocks := [];
    }

    /** The message schedule, filled in place. */
    method Schedule() returns (m: array<bv32>)
      requires Shaped()
      ensures fresh(m) && m.Length == 64
      ensures forall t :: 0 <= t < 64 ==> m[t] == W(data[..], t)
    {
      hide W, BigEndian, Sig0, Sig1, SmallSigma0, SmallSigma1, Add;
      ghost var block := data[..];
      m := new bv32[64];
      var i, j := 0, 0;
      while i < 16
        invariant 0 <= i <= 16 && j == 4 * i && data[..] == block
        invariant forall t :: 0 <= t < i ==> m[t] == W(block, t)
      {
        WFirst(block, i);
        m[i] := BigEndian(data[j], data[j + 1], data[j + 2], data[j + 3]);
        i, j := i + 1, j + 4;
      }
      while i < 64
        invariant 16 <= i <= 64 && data[..] == block
        invariant forall t :: 0 <= t < i ==> m[t] == W(block, t)
      {
        WLater(block, i);
        Macros(m[i - 2]);
        Macros(m[i - 15]);
        m[i] := Add(Add(Add(Sig1(m[i - 2]), m[i - 7]), Sig0(m[i - 15])), m[i - 16]);
        i := i + 1;
      }
    }

    method Transform()
      requires Shaped()
      modifies state
      ensures RegistersOf(state[..]) == Compress(RegistersOf(old(state[..])), data[..])
    {
      hide Ep0, Ep1, BigSigma0, BigSigma1, Ch, Maj, W, RoundConstant, Add;
      ghost var start, block := RegistersOf(state[..]), data[..];
      var m := Schedule();
      var a, b, c, d := state[0], state[1], state[2], state[3];
      var e, f, g, h := state[4], state[5], state[6], state[7];
      var i := 0;
      while i < 64
        invariant 0 <= i <= 64
        invariant Registers(a, b, c, d, e, f, g, h) == Rounds(start, block, i)
        invariant RegistersOf(state[..]) == start
        invariant forall t :: 0 <= t < 64 ==> m[t] == W(block, t)
      {
        Macros(e);
        Macros(a);
        var t1 := Add(Add(Add(Add(h, Ep1(e)), Ch(e, f, g)), RoundConstant(i)), m[i]);
        var t2 := Add(Ep0(a), Maj(a, b, c));
        h := g;
        g := f;
        f := e;
        e := Add(d, t1);
        d := c;
        c := b;
        b := a;
        a := Add(t1, t2);
        i := i + 1;
      }
      state[0], state[1], state[2], state[3] := Add(state[0], a), Add(state[1], b), Add(state[2], c), Add(state[3], d);
      state[4], state[5], state[6], state[7] := Add(state[4], e), Add(state[5], f), Add(state[6], g), Add(state[7], h);
    }

    /** The body of the update loop, for one byte. */
    method UpdateByte(x: bv8)
      requires Valid()
      modifies this, data, state
      ensures Valid() && Message() == old(Message()) + [x]
    {
      hide Compress, RegistersOf, HashBlocks, AddBits, BitLength;
      ghost var tail := data[..datalen];
      data[datalen] := x;
      datalen := datalen + 1;
      assert data[..datalen] == tail + [x];
      if datalen == 64 { FullBlock(); }
    }

    /** A full buffer is compressed and emptied. */
    method FullBlock()
      requires Shaped() && datalen == 64 && |blocks| % 64 == 0
      requires RegistersOf(state[..]) == HashBlocks(blocks) && bitlen == BitLength(|blocks|)
      modifies this, state
      ensures Valid() && Message() == old(Message())
    {
      hide Compress, RegistersOf, HashBlocks, AddBits, BitLength;
      ghost var block := data[..];
      assert data[..datalen] == block;
      Transform();
      HashAppend(blocks, block);
      BitCount(|blocks|, 64);
      blocks := blocks + block;
      bitlen := AddBits(bitlen, 512);
      datalen := 0;
    }

    /** On a longer input the source's loop does not end, see UpdateEnds. */
    method Update(input: Bytes)
      requires Valid() && |input| < 0x1_0000_0000
      modifies this, data, state
      ensures Valid() && Message() == old(Message()) + input
    {
      hide HashBlocks, RegistersOf;
      var i := 0;
      while i < |input|
        invariant 0 <= i <= |input|
        invariant Valid() && Message() == old(Message()) + input[..i]
      {
        UpdateByte(input[i]);
        i := i + 1;
      }
    }

    /** Writes the 0x80 byte and zeros up to index `end`. */
    method PadData(end: nat)
      requires Shaped() && datalen < end <= 64
      modifies data
      ensures data[..end] == old(data[..datalen]) + [0x80] + Zeros(end - datalen - 1)
    {
      var i := datalen;
      data[i] := 0x80;
      i := i + 1;
      while i < end
        invariant datalen < i <= end
        invariant data[..i] == old(data[..datalen]) + [0x80] + Zeros(i - datalen - 1)
      {
        data[i] := 0;
        i := i + 1;
      }
    }

    /** memset(data, 0, 56). */
    method ClearData()
      requires Shaped()
      modifies data
      ensures data[..56] == Zeros(56) && data[56..] == old(data[56..])
    {
      for i := 0 to 56
        invariant data[..i] == Zeros(i) && data[56..] == old(data[56..])
      {
        data[i] := 0;
      }
    }

    /** The length in the last eight bytes, most significant first. */
    method PutLength()
      requires Shaped()
      modifies data
      ensures data[..56] == old(data[..56]) && data[56..] == Bytes64(bitlen)
    {
      hide ByteOf;
      data[63] := ByteOf(bitlen, 0);
      data[62] := ByteOf(bitlen, 1);
      data[61] := ByteOf(bitlen, 2);
      data[60] := ByteOf(bitlen, 3);
      assert data[60..] == FourBytes(bitlen, 0);
      assert data[..56] == old(data[..56]);
      data[59] := ByteOf(bitlen, 4);
      data[58] := ByteOf(bitlen, 5);
      data[57] := ByteOf(bitlen, 6);
      data[56] := ByteOf(bitlen, 7);
      assert data[60..] == FourBytes(bitlen, 0);
      assert data[56..60] == FourBytes(bitlen, 4);
      assert data[56..] == data[56..60] + data[60..];
    }

    /** One pass of the output loop: byte `i` of each of the eight words. */
    method PutColumn(hash: array<bv8>, i: nat)
      requires Shaped() && 32 <= hash.Length && i < 4
      modifies hash
      ensures Column(hash[..32], state[..], i)
      ensures forall p :: 0 <= p < hash.Length && !InColumn(p, i) ==> hash[p] == old(hash[p])
    {
      hide WordByte;
      hash[i] := WordByte(state[0], i);
      hash[i + 4] := WordByte(state[1], i);
      hash[i + 8] := WordByte(state[2], i);
      hash[i + 12] := WordByte(state[3], i);
      hash[i + 16] := WordByte(state[4], i);
      hash[i + 20] := WordByte(state[5], i);
      hash[i + 24] := WordByte(state[6], i);
      hash[i + 28] := WordByte(state[7], i);
    }

    method PutHash(hash: array<bv8>)
      requires Shaped() && 32 <= hash.Length
      modifies hash
      ensures hash[..32] == DigestBytes(RegistersOf(state[..]))
      ensures hash[32..] == old(hash[32..])
    {
      hide Column, DigestBytes, RegistersOf;
      for i := 0 to 4
        invariant forall t :: 0 <= t < i ==> Column(hash[..32], state[..], t)
        invariant hash[32..] == old(hash[32..])
      {
        ghost var before := hash[..32];
        PutColumn(hash, i);
        ColumnsKept(before, hash[..32], state[..], i);
      }
      DigestColumns(hash[..32], state[..]);
    }

    /** Appends the length to the first 56 bytes of the buffer and compresses. */
    method LastBlock(ghost head: Bytes)
      requires Shaped() && RegistersOf(state[..]) == HashBlocks(head)
      modifies this, data, state
      ensures RegistersOf(state[..]) ==
              HashBlocks(head + (old(data[..56]) + Bytes64(AddBits(old(bitlen), 8 * old(datalen)))))
    {
      hide Compress, RegistersOf, HashBlocks, Bytes64, AddBits;
      ghost var front := data[..56];
      bitlen := AddBits(bitlen, 8 * datalen);
      PutLength();
      assert data[..] == front + Bytes64(bitlen);
      Transform();
      HashAppend(head, front + Bytes64(bitlen));
    }

    /** The padding of sha256_final, in either of its two forms, and its compressions. */
    method Finish()
      requires Valid()
      modifies this, data, state
      ensures RegistersOf(state[..]) == HashBlocks(Pad(old(Message())))
    {
      hide RegistersOf, HashBlocks, Zeros, Bytes64, Pad, AddBits, BitLength;
      ghost var head, tail := blocks, data[..datalen];
      BitCount(|head|, datalen);
      if datalen < 56 {
        PadData(56);
        PadOneBlock(head, tail);
        LastBlock(head);
      } else {
        ExtraBlock();
        PadTwoBlocks(head, tail);
        LastBlock(head + (tail + [0x80] + Zeros(63 - |tail|)));
      }
    }

    /** No room for the length: a block of padding goes first. */
    method ExtraBlock()
      requires Valid() && 56 <= datalen
      modifies data, state
      ensures RegistersOf(state[..]) == HashBlocks(blocks + (old(data[..datalen]) + [0x80] + Zeros(63 - datalen)))
      ensures data[..56] == Zeros(56)
    {
      hide Compress, RegistersOf, HashBlocks, Zeros, AddBits, BitLength;
      ghost var block := data[..datalen] + [0x80] + Zeros(63 - datalen);
      PadData(64);
      assert data[..] == block;
      Transform();
      HashAppend(blocks, block);
      ClearData();
    }

    method Final(hash: array<bv8>)
      requires Valid() && 32 <= hash.Length && hash != data
      modifies this, data, state, hash
      ensures hash[..32] == Digest(old(Message()))
      ensures hash[32..] == old(hash[32..])
    {
      hide HashBlocks, Pad, DigestBytes, RegistersOf;
      Finish();
      PutHash(hash);
    }
  }

  function Concat(chunks: seq<Bytes>): (r: Bytes) {
    if chunks == [] then [] else Concat(chunks[..|chunks| - 1]) + chunks[|chunks| - 1]
  }

  /** However a message is cut into updates, the result is the digest of the whole. */
  method HashChunks(chunks: seq<Bytes>) returns (digest: Bytes)
    requires forall i :: 0 <= i < |chunks| ==> |chunks[i]| < 0x1_0000_0000
    ensures digest == Digest(Concat(chunks))
  {
    var ctx := new Context();
    for i := 0 to |chunks|
      invariant ctx.Valid() && ctx.Message() == Concat(chunks[..i])
      invariant fresh(ctx) && fresh(ctx.data) && fresh(ctx.state)
    {
      ctx.Update(chunks[i]);
      assert chunks[..i + 1][..i] == chunks[..i];
    }
    assert chunks[..|chunks|] == chunks;
    var hash := new bv8[32];
    ctx.Final(hash);
    digest := hash[..32];
  }
}
