/**
 * The byte buffer of the gset_encoder in modules/http2/h2_push.c: bits go
 * into the bytes from the most significant bit on; a byte is started as
 * 0xff and a 0 bit clears its bit, so the unused tail of the last byte
 * reads as 1 bits.
 *
 * Pack is the reference definition (the bit string cut into bytes, the
 * last one padded with 1 bits); the encoder's state after any bit string
 * is the header followed by Pack of it, and Unpack inverts Pack up to the
 * padding.
 */
module DigestBytes {
  import opened Common
  import opened PushDiary
  import opened Golomb

  lemma Pow2Eight()
    ensures Pow2(8) == 256
  {
    assert Pow2(4) == 16;
  }

  /** The byte eight bits spell, most significant first. */
  function ByteOf(bs: seq<bool>): (r: byte)
    requires |bs| == 8
  {
    Pow2Eight();
    ValueBound(bs);
    Value(bs)
  }

  /** A byte's bits are the bits it was made of. */
  lemma BitsOfByte(bs: seq<bool>)
    requires |bs| == 8
    ensures Bits(ByteOf(bs), 8) == bs
  {
    BitsOfValue(bs);
  }

  /** Number of 1 bits that fill up the last byte of n bits. */
  function PadLen(n: nat): nat
  {
    if n % 8 == 0 then 0 else 8 - n % 8
  }

  lemma PadLenShort(n: nat)
    requires 0 < n <= 8
    ensures PadLen(n) == 8 - n
  {
  }

  lemma PadLenShift(n: nat)
    requires n >= 8
    ensures PadLen(n - 8) == PadLen(n)
  {
    assert (n - 8) % 8 == n % 8;
  }

  /** Bits cut into bytes, the last byte padded with 1 bits. */
  function Pack(bs: seq<bool>): (r: seq<byte>)
    ensures bs != [] ==> |r| > 0
    decreases |bs|
  {
    if bs == [] then []
    else if |bs| <= 8 then [ByteOf(bs + Ones(8 - |bs|))]
    else [ByteOf(bs[..8])] + Pack(bs[8..])
  }

  /** A byte for every 8 bits begun. */
  lemma {:induction false} PackLength(bs: seq<bool>)
    ensures |Pack(bs)| == (|bs| + 7) / 8
    decreases |bs|
  {
    if |bs| > 8 {
      PackLength(bs[8..]);
    }
  }

  /** The bits of a byte string, each byte most significant bit first. */
  function Unpack(data: seq<byte>): (r: seq<bool>)
    ensures |r| == 8 * |data|
  {
    if data == [] then [] else Bits(data[0], 8) + Unpack(data[1..])
  }

  /** Unpacking the packed bits gives them back followed by the padding. */
  lemma {:induction false} UnpackPack(bs: seq<bool>)
    ensures Unpack(Pack(bs)) == bs + Ones(PadLen(|bs|))
    decreases |bs|
  {
    if bs == [] {
    } else if |bs| <= 8 {
      UnpackPackLast(bs);
    } else {
      UnpackPack(bs[8..]);
      UnpackPackCons(bs);
    }
  }

  lemma UnpackPackLast(bs: seq<bool>)
    requires 0 < |bs| <= 8
    ensures Unpack(Pack(bs)) == bs + Ones(PadLen(|bs|))
  {
    var full := bs + Ones(8 - |bs|);
    assert Pack(bs) == [ByteOf(full)];
    BitsOfByte(full);
    assert Unpack([ByteOf(full)]) == Bits(ByteOf(full), 8) + Unpack([]);
    assert Unpack(Pack(bs)) == full;
    PadLenShort(|bs|);
  }

  lemma UnpackPackCons(bs: seq<bool>)
    requires |bs| > 8
    requires Unpack(Pack(bs[8..])) == bs[8..] + Ones(PadLen(|bs| - 8))
    ensures Unpack(Pack(bs)) == bs + Ones(PadLen(|bs|))
  {
    var b0 := ByteOf(bs[..8]);
    var rest := Pack(bs[8..]);
    assert Pack(bs) == [b0] + rest;
    assert ([b0] + rest)[1..] == rest;
    BitsOfByte(bs[..8]);
    assert Unpack(Pack(bs)) == bs[..8] + Unpack(rest);
    PadLenShift(|bs|);
    assert bs == bs[..8] + bs[8..];
  }

  /** The bits of the last, partly filled byte of a bit string. */
  function LastChunk(bs: seq<bool>): (r: seq<bool>)
    ensures |r| == |bs| % 8
  {
    bs[|bs| - |bs| % 8..]
  }

  /** A bit string that fills whole bytes gets a new byte for the next bit. */
  lemma {:induction false} PackSnocNew(bs: seq<bool>, b: bool)
    requires |bs| % 8 == 0
    ensures Pack(bs + [b]) == Pack(bs) + [ByteOf([b] + Ones(7))]
    decreases |bs|
  {
    if bs == [] {
      assert bs + [b] == [b];
    } else if |bs| == 8 {
      assert bs + Ones(0) == bs;
      assert (bs + [b])[..8] == bs && (bs + [b])[8..] == [b];
    } else {
      PackSnocNew(bs[8..], b);
      assert (bs + [b])[..8] == bs[..8];
      assert (bs + [b])[8..] == bs[8..] + [b];
    }
  }

  /** Otherwise the next bit goes into the last byte. */
  lemma {:induction false} PackSnocSame(bs: seq<bool>, b: bool)
    requires |bs| % 8 != 0
    ensures var p := Pack(bs);
            && p[|p| - 1] == ByteOf(LastChunk(bs) + Ones(8 - |bs| % 8))
            && Pack(bs + [b]) == p[..|p| - 1] + [ByteOf(LastChunk(bs) + [b] + Ones(7 - |bs| % 8))]
    decreases |bs|
  {
    if |bs| < 8 {
      PackSnocSameShort(bs, b);
    } else {
      var t := bs[8..];
      var x := ByteOf(bs[..8]);
      assert |t| % 8 == |bs| % 8;
      PackSnocSame(t, b);
      assert LastChunk(bs) == LastChunk(t);
      var q := Pack(t);
      assert Pack(bs) == [x] + q;
      assert Pack(bs + [b]) == [x] + Pack(t + [b]) by {
        assert (bs + [b])[..8] == bs[..8];
        assert (bs + [b])[8..] == t + [b];
      }
      ConsLast(x, q);
    }
  }

  lemma ConsLast<T>(x: T, q: seq<T>)
    requires q != []
    ensures var p := [x] + q;
            p[|p| - 1] == q[|q| - 1] && p[..|p| - 1] == [x] + q[..|q| - 1]
  {
  }

  lemma PackSnocSameShort(bs: seq<bool>, b: bool)
    requires 0 < |bs| < 8
    ensures var p := Pack(bs);
            && p[|p| - 1] == ByteOf(LastChunk(bs) + Ones(8 - |bs| % 8))
            && Pack(bs + [b]) == p[..|p| - 1] + [ByteOf(LastChunk(bs) + [b] + Ones(7 - |bs| % 8))]
  {
    PackShortLast(bs);
    PackShortSnoc(bs, b);
  }

  lemma PackShortLast(bs: seq<bool>)
    requires 0 < |bs| < 8
    ensures var p := Pack(bs);
            p[|p| - 1] == ByteOf(LastChunk(bs) + Ones(8 - |bs| % 8))
  {
    assert |bs| % 8 == |bs| && LastChunk(bs) == bs;
    PackShort(bs);
  }

  lemma PackShortSnoc(bs: seq<bool>, b: bool)
    requires 0 < |bs| < 8
    ensures var p := Pack(bs);
            Pack(bs + [b]) == p[..|p| - 1] + [ByteOf(LastChunk(bs) + [b] + Ones(7 - |bs| % 8))]
  {
    var p := Pack(bs);
    var y := ByteOf(LastChunk(bs) + [b] + Ones(7 - |bs| % 8));
    assert |p| == 1 by {
      PackShort(bs);
    }
    assert Pack(bs + [b]) == [y] by {
      assert |bs| % 8 == |bs| && LastChunk(bs) == bs;
      PackShort(bs + [b]);
      assert 8 - |bs + [b]| == 7 - |bs|;
    }
    assert p[..|p| - 1] + [y] == [y];
  }

  /** A bit string of at most 8 bits packs into one byte. */
  lemma PackShort(bs: seq<bool>)
    requires 0 < |bs| <= 8
    ensures Pack(bs) == [ByteOf(bs + Ones(8 - |bs|))]
  {
  }

  /** cbit_mask: the mask of bit k of a byte, bit 0 being the most significant. */
  const CbitMask: seq<nat> := [0x80, 0x40, 0x20, 0x10, 0x08, 0x04, 0x02, 0x01]

  lemma CbitMaskIsPow2(k: nat)
    requires k < 8
    ensures CbitMask[k] == Pow2(7 - k)
  {
    assert Pow2(7) == 128;
  }

  /** `x &= ~cbit_mask[k]`: bit k of the byte cleared. */
  function ClearBit(x: byte, k: nat): (r: byte)
    requires k < 8
  {
    var m := CbitMask[k];
    if (x / m) % 2 == 1 then x - m else x
  }

  lemma OnesValue(k: nat)
    ensures Value(Ones(k)) == Pow2(k) - 1
  {
    if k > 0 {
      assert Ones(k)[..k - 1] == Ones(k - 1);
      OnesValue(k - 1);
    }
  }

  /** The value of a byte whose bits after p and one more bit are all 1. */
  lemma ValueWithBit(p: seq<bool>, b: bool, k: nat)
    ensures Value(p + [b] + Ones(k)) == (2 * Value(p) + (if b then 1 else 0)) * Pow2(k) + (Pow2(k) - 1)
  {
    ValueAppend(p + [b], Ones(k));
    ValueAppend(p, [b]);
    OnesValue(k);
  }

  /** Clearing the bit of weight 2^k from (2v + 1) 2^k + 2^k - 1. */
  lemma ClearBitArith(x: byte, v: nat, k: nat)
    requires k < 8 && x == (2 * v + 1) * Pow2(k) + (Pow2(k) - 1)
    ensures ClearBit(x, 7 - k) == x - Pow2(k)
  {
    CbitMaskIsPow2(7 - k);
    DivModUnique(x, Pow2(k), 2 * v + 1, Pow2(k) - 1);
  }

  /** Clearing bit |p| of a byte whose bits after p are all 1. */
  lemma ClearBitOfByte(p: seq<bool>, k: nat)
    requires |p| + 1 + k == 8
    ensures ClearBit(ByteOf(p + [true] + Ones(k)), |p|) == ByteOf(p + [false] + Ones(k))
  {
    ValueWithBit(p, true, k);
    ValueWithBit(p, false, k);
    ClearBitArith(ByteOf(p + [true] + Ones(k)), Value(p), k);
  }

  /** Packing a 1 bit and a 0 bit after a partial byte. */
  lemma ByteWithBit(p: seq<bool>, b: bool, k: nat)
    requires |p| + 1 + k == 8
    ensures ByteOf(p + [b] + Ones(k))
            == if b then ByteOf(p + Ones(k + 1)) else ClearBit(ByteOf(p + Ones(k + 1)), |p|)
  {
    assert p + [true] + Ones(k) == p + Ones(k + 1);
    if !b {
      ClearBitOfByte(p, k);
    }
  }

  /**
   * The gset_encoder fields that hold the output: the bytes written so far
   * (data up to and including offset; the buffer beyond is never read),
   * the byte being filled and the position of the last bit written in it.
   */
  datatype Encoder = Encoder(data: seq<byte>, offset: nat, bit: nat)

  predicate Wf(e: Encoder) {
    |e.data| == e.offset + 1 && e.bit <= 8
  }

  /**
   * gset_encode_bit: advancing past the last bit of a byte starts the next
   * byte as 0xff; a 0 bit then clears its position.
   */
  function EncodeBit(e: Encoder, b: bool): (r: Encoder)
    requires Wf(e)
    ensures Wf(r) && r.bit < 8
  {
    var e1 := if e.bit + 1 >= 8 then Encoder(e.data + [0xff], e.offset + 1, 0)
              else e.(bit := e.bit + 1);
    if b then e1
    else e1.(data := e1.data[e1.offset := ClearBit(e1.data[e1.offset], e1.bit)])
  }

  /** The bits bs encoded one after the other. */
  function EncodeBits(e: Encoder, bs: seq<bool>): (r: Encoder)
    requires Wf(e)
    ensures Wf(r)
    decreases |bs|
  {
    if bs == [] then e else EncodeBit(EncodeBits(e, bs[..|bs| - 1]), bs[|bs| - 1])
  }

  /** Encoding a then b is encoding a + b. */
  lemma {:induction false} EncodeBitsAppend(e: Encoder, a: seq<bool>, b: seq<bool>)
    requires Wf(e)
    ensures EncodeBits(EncodeBits(e, a), b) == EncodeBits(e, a + b)
    decreases |b|
  {
    if b == [] {
      assert a + b == a;
    } else {
      EncodeBitsAppend(e, a, b[..|b| - 1]);
      assert (a + b)[..|a + b| - 1] == a + b[..|b| - 1];
    }
  }

  /**
   * The encoder of h2_push_diary_digest_get after the bits bs: the two
   * header bytes, then bs packed; data[0] and data[1] hold the header and
   * offset starts at 1 with bit 8, so the first bit starts a new byte.
   */
  function State(h: seq<byte>, bs: seq<bool>): Encoder
    requires |h| >= 1
  {
    Encoder(h + Pack(bs), |h| - 1 + |Pack(bs)|, if bs == [] then 8 else (|bs| - 1) % 8)
  }

  lemma AllOnesByte()
    ensures ByteOf(Ones(8)) == 0xff
  {
    OnesValue(8);
    Pow2Eight();
  }

  /** A bit after whole bytes starts a new byte. */
  lemma EncodeBitNew(h: seq<byte>, bs: seq<bool>, b: bool)
    requires |h| >= 1 && |bs| % 8 == 0
    ensures Wf(State(h, bs)) && EncodeBit(State(h, bs), b) == State(h, bs + [b])
  {
    PackSnocNew(bs, b);
    ByteWithBit([], b, 7);
    assert [] + [b] + Ones(7) == [b] + Ones(7);
    assert [] + Ones(8) == Ones(8);
    AllOnesByte();
    if bs != [] {
      ModPred(|bs|);
    }
    assert h + Pack(bs + [b]) == (h + Pack(bs)) + [ByteOf([b] + Ones(7))];
  }

  /** Any other bit goes into the last byte. */
  lemma EncodeBitSame(h: seq<byte>, bs: seq<bool>, b: bool)
    requires |h| >= 1 && |bs| % 8 != 0
    ensures Wf(State(h, bs)) && EncodeBit(State(h, bs), b) == State(h, bs + [b])
  {
    var j := |bs| % 8;
    var p := Pack(bs);
    PackSnocSame(bs, b);
    ByteWithBit(LastChunk(bs), b, 7 - j);
    assert Ones(7 - j + 1) == Ones(8 - j);
    ModPred(|bs|);
    ReplaceLast(h, p, ByteOf(LastChunk(bs) + [b] + Ones(7 - j)));
  }

  lemma ModPred(n: nat)
    requires n > 0
    ensures (n - 1) % 8 == if n % 8 == 0 then 7 else n % 8 - 1
  {
  }

  lemma ReplaceLast<T>(h: seq<T>, p: seq<T>, x: T)
    requires |p| > 0
    ensures h + (p[..|p| - 1] + [x]) == (h + p)[|h + p| - 1 := x]
  {
  }

  /** The encoder state is the header followed by the packed bits. */
  lemma {:induction false} EncodeBitsState(h: seq<byte>, bs: seq<bool>)
    requires |h| >= 1
    ensures Wf(State(h, [])) && EncodeBits(State(h, []), bs) == State(h, bs)
    decreases |bs|
  {
    assert h + [] == h;
    if bs != [] {
      var init := bs[..|bs| - 1];
      EncodeBitsState(h, init);
      assert init + [bs[|bs| - 1]] == bs;
      if |init| % 8 == 0 {
        EncodeBitNew(h, init, bs[|bs| - 1]);
      } else {
        EncodeBitSame(h, init, bs[|bs| - 1]);
      }
    }
  }
}
