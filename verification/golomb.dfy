/**
 * The Golomb-Rice coded set of the cache digest built by
 * h2_push_diary_digest_get (modules/http2/h2_push.c): each value is sent as
 * the gap to the previous one (the first as the gap to 0), the quotient of
 * the gap by 2^log2p in unary (that many 1 bits and a 0 bit), then the log2p
 * low bits of the gap, most significant first. Bits fill the bytes from the
 * most significant bit on, and the unused tail of the last byte stays 1.
 *
 * The decoder is the partner of the encoder: it reads a gap while a whole
 * code word is left, so the padding, a run of 1 bits without the closing
 * 0, ends the set.
 */
module Golomb {
  import opened Common
  import opened PushDiary

  /** k bits set. */
  function Ones(k: nat): (r: seq<bool>)
    ensures |r| == k && forall i :: 0 <= i < k ==> r[i]
  {
    seq(k, _ => true)
  }

  /**
   * The k low bits of x, most significant first: the loop
   * `for (i = fixed_bits-1; i >= 0; --i) encode((delta >> i) & 1)`.
   */
  function Bits(x: nat, k: nat): (r: seq<bool>)
    ensures |r| == k
  {
    if k == 0 then [] else Bits(x / 2, k - 1) + [x % 2 == 1]
  }

  /** The number a bit string spells, most significant bit first. */
  function Value(bs: seq<bool>): nat
  {
    if bs == [] then 0 else 2 * Value(bs[..|bs| - 1]) + (if bs[|bs| - 1] then 1 else 0)
  }

  /** n bits spell a number below 2^n. */
  lemma {:induction false} ValueBound(bs: seq<bool>)
    ensures Value(bs) < Pow2(|bs|)
  {
    if bs != [] {
      ValueBound(bs[..|bs| - 1]);
    }
  }

  lemma DivModUnique(x: int, m: int, q: int, r: int)
    requires m > 0 && 0 <= r < m && x == q * m + r
    ensures x / m == q && x % m == r
  {
    var q', r' := x / m, x % m;
    assert (q - q') * m == r' - r;
    if q > q' {
      MulAtLeast(q - q', m);
    } else if q < q' {
      MulAtLeast(q' - q, m);
    }
  }

  lemma MulAtLeast(a: int, m: int)
    requires a >= 1 && m > 0
    ensures a * m >= m
  {
  }

  /** Halving and taking the remainder by m is taking the remainder by 2m. */
  lemma ModDouble(x: nat, m: nat)
    requires m > 0
    ensures 2 * ((x / 2) % m) + x % 2 == x % (2 * m)
  {
    var q := x / 2;
    var b := q % m;
    var a := q / m;
    assert x == a * (2 * m) + (2 * b + x % 2);
    DivModUnique(x, 2 * m, a, 2 * b + x % 2);
  }

  /** Bits keeps exactly the low bits. */
  lemma {:induction false} ValueOfBits(x: nat, k: nat)
    ensures Value(Bits(x, k)) == x % Pow2(k)
  {
    if k > 0 {
      var bs := Bits(x, k);
      assert bs[..k - 1] == Bits(x / 2, k - 1);
      ValueOfBits(x / 2, k - 1);
      ModDouble(x, Pow2(k - 1));
    }
  }

  /** A bit string is the k low bits of its own value. */
  lemma {:induction false} BitsOfValue(bs: seq<bool>)
    ensures Bits(Value(bs), |bs|) == bs
  {
    if bs != [] {
      var init := bs[..|bs| - 1];
      BitsOfValue(init);
      var v := Value(bs);
      assert v / 2 == Value(init);
      assert bs == init + [bs[|bs| - 1]];
    }
  }

  lemma {:induction false} ValueAppend(a: seq<bool>, c: seq<bool>)
    ensures Value(a + c) == Value(a) * Pow2(|c|) + Value(c)
    decreases |c|
  {
    if c == [] {
      assert a + c == a;
    } else {
      var c' := c[..|c| - 1];
      var b := if c[|c| - 1] then 1 else 0;
      assert (a + c)[..|a + c| - 1] == a + c';
      assert Value(a + c) == 2 * Value(a + c') + b;
      ValueAppend(a, c');
      assert Value(c) == 2 * Value(c') + b;
      assert Pow2(|c|) == 2 * Pow2(|c'|);
      ShiftIn(Value(a), Pow2(|c'|), Value(c'), b);
    }
  }

  lemma ShiftIn(v: int, p: int, w: int, b: int)
    ensures 2 * (v * p + w) + b == v * (2 * p) + (2 * w + b)
  {
  }

  /** x << k, without a width. */
  function Shl(x: nat, k: nat): nat
  {
    if k == 0 then x else 2 * Shl(x, k - 1)
  }

  /** Shifting right by k divides by 2^k. */
  lemma {:induction false} ShrIsDiv(x: nat, k: nat)
    ensures Shr(x, k) == x / Pow2(k)
  {
    if k > 0 {
      ShrIsDiv(x / 2, k - 1);
      HalveDiv(x, Pow2(k - 1));
    }
  }

  lemma HalveDiv(x: nat, m: nat)
    requires m > 0
    ensures (x / 2) / m == x / (2 * m)
  {
    var q := (x / 2) / m;
    var r := (x / 2) % m;
    assert x == q * (2 * m) + (2 * r + x % 2);
    DivModUnique(x, 2 * m, q, 2 * r + x % 2);
  }

  /**
   * The code word of one gap: `delta >> fixed_bits` 1 bits, a 0 bit, and
   * the fixed_bits low bits of delta.
   */
  function Code(delta: nat, log2p: nat): (r: seq<bool>)
  {
    Ones(Shr(delta, log2p)) + [false] + Bits(delta, log2p)
  }

  /**
   * The bits gset_encode_next emits for the values vs, the previous value
   * being last; the gap is the 64-bit unsigned difference.
   */
  function EncodeSet(last: u64, vs: seq<u64>, log2p: nat): (r: seq<bool>)
    ensures vs == [] <==> r == []
    decreases |vs|
  {
    if vs == [] then []
    else Code((vs[0] - last) % U64, log2p) + EncodeSet(vs[0], vs[1..], log2p)
  }

  /** The leading run of 1 bits. */
  function LeadingOnes(bs: seq<bool>): (r: nat)
    ensures r <= |bs|
    ensures forall i :: 0 <= i < r ==> bs[i]
    ensures r < |bs| ==> !bs[r]
  {
    if bs == [] || !bs[0] then 0 else 1 + LeadingOnes(bs[1..])
  }

  lemma LeadingOnesOfCode(q: nat, rest: seq<bool>)
    ensures LeadingOnes(Ones(q) + [false] + rest) == q
  {
    var bs := Ones(q) + [false] + rest;
    assert bs[q] == false;
  }

  lemma LeadingOnesOfOnes(k: nat)
    ensures LeadingOnes(Ones(k)) == k
  {
  }

  /**
   * One code word at the start of bs: the gap it stands for and its length,
   * or None when bs ends before the word does.
   */
  function ReadWord(bs: seq<bool>, log2p: nat): (r: Option<(nat, nat)>)
    ensures r.Some? ==> 0 < r.value.1 <= |bs|
  {
    var q := LeadingOnes(bs);
    if q == |bs| || q + 1 + log2p > |bs| then None
    else Some((Gap(q, log2p, bs[q + 1..q + 1 + log2p]), q + 1 + log2p))
  }

  /**
   * The decoder: while a whole code word is left, read it and add its gap
   * to the previous value.
   */
  function DecodeSet(bs: seq<bool>, last: int, log2p: nat): (r: seq<int>)
    decreases |bs|
  {
    match ReadWord(bs, log2p)
    case None => []
    case Some((gap, n)) => [last + gap] + DecodeSet(bs[n..], last + gap, log2p)
  }

  /** vs ascends from last, as the sorted hashes of the digest do. */
  predicate Ascending(last: int, vs: seq<int>)
    decreases |vs|
  {
    vs == [] || (last <= vs[0] && Ascending(vs[0], vs[1..]))
  }

  /** The gap a unary quotient q and the remainder bits rem stand for. */
  function Gap(q: nat, log2p: nat, rem: seq<bool>): nat
  {
    Shl(q, log2p) + Value(rem)
  }

  /** A gap is its quotient shifted back plus its low log2p bits. */
  lemma {:induction false} GapOfCode(d: nat, log2p: nat)
    ensures Gap(Shr(d, log2p), log2p, Bits(d, log2p)) == d
  {
    if log2p > 0 {
      GapOfCode(d / 2, log2p - 1);
      var bs := Bits(d, log2p);
      assert bs[..log2p - 1] == Bits(d / 2, log2p - 1);
    }
  }

  /** One code word, followed by anything, reads as its gap. */
  lemma ReadCodeWord(d: nat, log2p: nat, rest: seq<bool>)
    ensures ReadWord(Code(d, log2p) + rest, log2p) == Some((d, |Code(d, log2p)|))
    ensures (Code(d, log2p) + rest)[|Code(d, log2p)|..] == rest
  {
    var q := Shr(d, log2p);
    var bs := Code(d, log2p) + rest;
    assert bs == Ones(q) + [false] + (Bits(d, log2p) + rest);
    LeadingOnesOfCode(q, Bits(d, log2p) + rest);
    assert bs[q + 1..q + 1 + log2p] == Bits(d, log2p);
    GapOfCode(d, log2p);
  }

  /** Decoding a code word followed by more bits. */
  lemma DecodeStep(last: int, d: nat, log2p: nat, rest: seq<bool>)
    ensures DecodeSet(Code(d, log2p) + rest, last, log2p) == [last + d] + DecodeSet(rest, last + d, log2p)
  {
    ReadCodeWord(d, log2p, rest);
  }

  /** Padding alone decodes to nothing. */
  lemma DecodePadding(pad: nat, last: int, log2p: nat)
    ensures DecodeSet(Ones(pad), last, log2p) == []
  {
    LeadingOnesOfOnes(pad);
  }

  /**
   * The code word is the Golomb-Rice code of the gap: the quotient by
   * 2^log2p in unary and the remainder in log2p bits.
   */
  lemma CodeIsGolombRice(d: nat, log2p: nat)
    ensures Shr(d, log2p) == d / Pow2(log2p)
    ensures Code(d, log2p) == Ones(d / Pow2(log2p)) + [false] + Bits(d, log2p)
    ensures Value(Bits(d, log2p)) == d % Pow2(log2p)
  {
    ShrIsDiv(d, log2p);
    ValueOfBits(d, log2p);
  }

  /** The code of vs followed by tail, built without re-associating. */
  function EncodeOnto(last: u64, vs: seq<u64>, log2p: nat, tail: seq<bool>): (r: seq<bool>)
    decreases |vs|
  {
    if vs == [] then tail
    else Code((vs[0] - last) % U64, log2p) + EncodeOnto(vs[0], vs[1..], log2p, tail)
  }

  lemma {:induction false} EncodeOntoIsAppend(last: u64, vs: seq<u64>, log2p: nat, tail: seq<bool>)
    ensures EncodeOnto(last, vs, log2p, tail) == EncodeSet(last, vs, log2p) + tail
    decreases |vs|
  {
    if vs != [] {
      EncodeOntoIsAppend(vs[0], vs[1..], log2p, tail);
      var c := Code((vs[0] - last) % U64, log2p);
      assert c + (EncodeSet(vs[0], vs[1..], log2p) + tail) == (c + EncodeSet(vs[0], vs[1..], log2p)) + tail;
    }
  }

  lemma DecodeOntoCons(last: u64, vs: seq<u64>, log2p: nat, tail: seq<bool>)
    requires vs != [] && last <= vs[0]
    ensures DecodeSet(EncodeOnto(last, vs, log2p, tail), last, log2p)
            == [vs[0]] + DecodeSet(EncodeOnto(vs[0], vs[1..], log2p, tail), vs[0], log2p)
  {
    var d := vs[0] - last;
    assert (vs[0] - last) % U64 == d;
    DecodeStep(last, d, log2p, EncodeOnto(vs[0], vs[1..], log2p, tail));
  }

  lemma {:induction false} DecodeEncodeOnto(last: u64, vs: seq<u64>, log2p: nat, pad: nat)
    requires Ascending(last, vs)
    ensures DecodeSet(EncodeOnto(last, vs, log2p, Ones(pad)), last, log2p) == vs
    decreases |vs|
  {
    if vs == [] {
      DecodePadding(pad, last, log2p);
    } else {
      DecodeEncodeOnto(vs[0], vs[1..], log2p, pad);
      DecodeOntoCons(last, vs, log2p, Ones(pad));
      assert [vs[0]] + vs[1..] == vs;
    }
  }

  /**
   * Round trip: the code of an ascending sequence, followed by any number
   * of padding 1 bits, decodes to that sequence.
   */
  lemma DecodeEncodeSet(last: u64, vs: seq<u64>, log2p: nat, pad: nat)
    requires Ascending(last, vs)
    ensures DecodeSet(EncodeSet(last, vs, log2p) + Ones(pad), last, log2p) == vs
    decreases |vs|
  {
    EncodeOntoIsAppend(last, vs, log2p, Ones(pad));
    DecodeEncodeOnto(last, vs, log2p, pad);
  }
}
