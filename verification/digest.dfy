/**
 * h2_push_diary_digest_get: the cache digest of a push diary. The header
 * holds log2(N) and log2(P); then come the diary hashes, cut to
 * log2(N) + log2(P) bits, sorted, de-duplicated and Golomb-Rice coded.
 */
module CacheDigest {
  import opened Common
  import opened PushDiary
  import opened Golomb
  import opened DigestBytes

  /* ---------------- bounds on the header values ---------------- */

  lemma {:induction false} Pow2Mono(a: nat, b: nat)
    requires a <= b
    ensures Pow2(a) <= Pow2(b)
    decreases b
  {
    if a < b {
      Pow2Mono(a, b - 1);
    }
  }

  lemma {:induction false} Pow2Add(a: nat, b: nat)
    ensures Pow2(a + b) == Pow2(a) * Pow2(b)
    decreases b
  {
    if b > 0 {
      Pow2Add(a, b - 1);
    }
  }

  lemma Pow2Thirty()
    ensures Pow2(30) == 0x4000_0000
  {
    assert Pow2(5) == 32;
    Pow2Add(5, 5);
    Pow2Add(10, 10);
    Pow2Add(20, 10);
  }

  /** The ceiling of n never exceeds a power of two of at least n. */
  lemma {:induction false} CeilPowerOf2Le(n: int, k: nat)
    requires 1 <= k && n <= Pow2(k) && n <= 0x4000_0000
    ensures CeilPowerOf2(n) <= Pow2(k)
    decreases k
  {
    if n > 2 {
      assert k >= 2;
      CeilPowerOf2Le((n + 1) / 2, k - 1);
    } else {
      Pow2Mono(1, k);
    }
  }

  /** h2_log2 is monotone in the exponent bound. */
  lemma {:induction false} Log2Le(x: nat, k: nat)
    requires x <= Pow2(k)
    ensures Log2(x) <= k
    decreases k
  {
    if x > 1 {
      Log2Le(x / 2, k - 1);
    }
  }

  /** log2 of the ceiling of any count up to 2^30 is at most 30. */
  lemma Log2CeilBound(n: int)
    requires n <= 0x4000_0000
    ensures Log2(CeilPowerOf2(n)) <= 30
  {
    Pow2Thirty();
    CeilPowerOf2Le(n, 30);
    Log2Le(CeilPowerOf2(n), 30);
  }

  /* ---------------- sorting (qsort with cmp_puint64) ---------------- */

  predicate Sorted(s: seq<int>) {
    forall i, j :: 0 <= i < j < |s| ==> s[i] <= s[j]
  }

  predicate Increasing(s: seq<int>) {
    forall i, j :: 0 <= i < j < |s| ==> s[i] < s[j]
  }

  function Insert(x: u64, s: seq<u64>): (r: seq<u64>)
    requires Sorted(s)
    ensures |r| == |s| + 1 && r[0] == (if s == [] || x <= s[0] then x else s[0])
    ensures Sorted(r) && multiset(r) == multiset(s) + multiset{x}
  {
    if s == [] || x <= s[0] then [x] + s
    else
      var t := Insert(x, s[1..]);
      assert s == [s[0]] + s[1..];
      [s[0]] + t
  }

  /**
   * The ascending order qsort produces with cmp_puint64, as an insertion
   * sort: the result is sorted and a permutation of the input.
   */
  function Sort(s: seq<u64>): (r: seq<u64>)
    ensures Sorted(r) && multiset(r) == multiset(s)
  {
    if s == [] then []
    else
      assert s == [s[0]] + s[1..];
      Insert(s[0], Sort(s[1..]))
  }

  /** A sorted permutation is unique, so any correct qsort gives Sort(s). */
  lemma {:induction false} SortedPermutationsEqual(a: seq<u64>, b: seq<u64>)
    requires Sorted(a) && Sorted(b) && multiset(a) == multiset(b)
    ensures a == b
    decreases |a|
  {
    if a != [] {
      SortedPermutationStep(a, b);
      SortedPermutationsEqual(a[1..], b[1..]);
      assert a == [a[0]] + a[1..] && b == [b[0]] + b[1..];
    }
  }

  /** Two sorted permutations of a non-empty sequence start alike and continue as sorted permutations. */
  lemma SortedPermutationStep(a: seq<u64>, b: seq<u64>)
    requires Sorted(a) && Sorted(b) && multiset(a) == multiset(b) && a != []
    ensures b != [] && a[0] == b[0]
    ensures Sorted(a[1..]) && Sorted(b[1..]) && multiset(a[1..]) == multiset(b[1..])
  {
    assert a[0] == b[0] by {
      assert a[0] in multiset(a);
      FirstIsLeast(b, a[0]);
      FirstIsLeast(a, b[0]);
    }
    assert multiset(a[1..]) == multiset(b[1..]) by {
      MultisetCons(a);
      MultisetCons(b);
      MultisetCancel(a[0], multiset(a[1..]), multiset(b[1..]));
    }
    SortedTail(a);
    SortedTail(b);
  }


  lemma MultisetCons<T>(s: seq<T>)
    requires s != []
    ensures multiset(s) == multiset{s[0]} + multiset(s[1..])
  {
    assert s == [s[0]] + s[1..];
  }

  lemma SortedTail(s: seq<u64>)
    requires Sorted(s) && s != []
    ensures Sorted(s[1..])
  {
    forall i, j | 0 <= i < j < |s| - 1
      ensures s[1..][i] <= s[1..][j]
    {
      assert s[1..][i] == s[i + 1] && s[1..][j] == s[j + 1];
    }
  }

  lemma MultisetCancel<T>(x: T, m: multiset<T>, n: multiset<T>)
    requires multiset{x} + m == multiset{x} + n
    ensures m == n
  {
    assert m == (multiset{x} + m) - multiset{x};
    assert n == (multiset{x} + n) - multiset{x};
  }

  lemma FirstIsLeast(s: seq<u64>, x: u64)
    requires Sorted(s) && x in multiset(s)
    ensures s != [] && s[0] <= x
  {
    var i :| 0 <= i < |s| && s[i] == x;
  }

  /* ---------------- dropping repeats ---------------- */

  /**
   * The values the loop passes to gset_encode_next: each hash that is the
   * first or differs from its predecessor.
   */
  function Uniq(s: seq<u64>): (r: seq<u64>)
    decreases |s|
  {
    if |s| <= 1 then s
    else if s[|s| - 1] != s[|s| - 2] then Uniq(s[..|s| - 1]) + [s[|s| - 1]]
    else Uniq(s[..|s| - 1])
  }

  /** Uniq keeps exactly the values of its input and ends with its last one. */
  lemma {:induction false} UniqValues(s: seq<u64>)
    ensures forall x :: x in Uniq(s) <==> x in s
    ensures |s| > 0 ==> |Uniq(s)| > 0 && Uniq(s)[|Uniq(s)| - 1] == s[|s| - 1]
    decreases |s|
  {
    if |s| > 1 {
      var init := s[..|s| - 1];
      UniqValues(init);
      assert s == init + [s[|s| - 1]];
      assert init[|init| - 1] == s[|s| - 2];
    }
  }

  /** On sorted input Uniq yields a strictly increasing sequence. */
  lemma {:induction false} UniqIncreasing(s: seq<u64>)
    requires Sorted(s)
    ensures Increasing(Uniq(s))
    decreases |s|
  {
    if |s| > 1 {
      var init := s[..|s| - 1];
      assert Sorted(init) by {
        forall i, j | 0 <= i < j < |init|
          ensures init[i] <= init[j]
        {
          assert init[i] == s[i] && init[j] == s[j];
        }
      }
      UniqIncreasing(init);
      if s[|s| - 1] != s[|s| - 2] {
        var u := Uniq(init);
        UniqValues(init);
        forall i | 0 <= i < |u|
          ensures u[i] < s[|s| - 1]
        {
          assert u[i] <= u[|u| - 1] == s[|s| - 2];
        }
        IncreasingSnoc(u, s[|s| - 1]);
      }
    }
  }

  lemma IncreasingSnoc(u: seq<u64>, x: u64)
    requires Increasing(u)
    requires forall i :: 0 <= i < |u| ==> u[i] < x
    ensures Increasing(u + [x])
  {
    forall i, j | 0 <= i < j < |u| + 1
      ensures (u + [x])[i] < (u + [x])[j]
    {
      if j < |u| {
        assert (u + [x])[i] == u[i] && (u + [x])[j] == u[j];
      }
    }
  }

  /** A strictly increasing sequence of naturals ascends from 0. */
  lemma {:induction false} IncreasingAscending(last: int, s: seq<int>)
    requires Increasing(s) && (s != [] ==> last <= s[0])
    ensures Ascending(last, s)
    decreases |s|
  {
    if s != [] {
      IncreasingAscending(s[0], s[1..]);
    }
  }

  /* ---------------- the hash array ---------------- */

  /** sizeof(apr_uint64_t). */
  const HashSize: nat := 8

  /** The bytes h2_push_diary_digest_get allocates for count hashes, as written. */
  function HashArrayBytesAsWritten(count: nat): nat { count }

  /** The bytes count hashes need. */
  function HashArrayBytes(count: nat): nat { count * HashSize }

  /** A block of size bytes holds count hashes. */
  predicate Holds(count: nat, size: nat) {
    HashSize * count <= size
  }

  /** hashes[i], the 8 bytes from offset 8 * i, lies inside a block of size bytes. */
  predicate InBlock(i: nat, size: nat) {
    HashSize * (i + 1) <= size
  }

  /** The store loop either stores every hash or stops at a store outside the block. */
  datatype StoreOutcome = Stored(hashes: seq<u64>) | OutOfBounds(index: nat)

  /**
   * The loop `hashes[i] = entry_i >> delta_bits` of h2_push_diary_digest_get
   * over a block of size bytes, from index i on, acc holding the values
   * already stored. It reports the first store that falls outside the
   * block; otherwise every entry is stored, shifted.
   */
  function StoreLoop(es: seq<u64>, deltaBits: nat, size: nat, i: nat, acc: seq<u64>): (r: StoreOutcome)
    requires i <= |es|
    ensures r.OutOfBounds? <==> i < |es| && !InBlock(|es| - 1, size)
    ensures r.OutOfBounds? ==> i <= r.index < |es| && !InBlock(r.index, size)
    ensures r.OutOfBounds? ==> forall j :: i <= j < r.index ==> InBlock(j, size)
    ensures r.Stored? ==> |r.hashes| == |acc| + |es| - i && r.hashes[..|acc|] == acc
    ensures r.Stored? ==> forall k :: |acc| <= k < |r.hashes| ==>
              r.hashes[k] == es[i + k - |acc|] / Pow2(deltaBits)
    decreases |es| - i
  {
    if i == |es| then Stored(acc)
    else if !InBlock(i, size) then OutOfBounds(i)
    else
      var x := es[i];
      ShrLe(x, deltaBits);
      ShrIsDiv(x, deltaBits);
      StoreLoop(es, deltaBits, size, i + 1, acc + [Shr(x, deltaBits)])
  }

  /** The loop as written, over the block of HashArrayBytesAsWritten(count) bytes. */
  function StoreHashesAsWritten(es: seq<u64>, deltaBits: nat): StoreOutcome
  {
    StoreLoop(es, deltaBits, HashArrayBytesAsWritten(|es|), 0, [])
  }

  /**
   * As written, every non-empty diary overruns its block: the store of
   * hashes[count / 8] is the first to write past the count bytes
   * allocated (for a single entry, hashes[0] writes 8 bytes into 1).
   */
  lemma AsWrittenOverflows(es: seq<u64>, deltaBits: nat)
    requires |es| >= 1
    ensures StoreHashesAsWritten(es, deltaBits) == OutOfBounds(|es| / HashSize)
  {
    var q := |es| / HashSize;
    assert q < |es| && !InBlock(q, |es|);
  }

  /**
   * With the corrected allocation the loop stores every entry, and what it
   * stores is StoreHashes.
   */
  lemma CorrectedStoreSucceeds(es: seq<u64>, deltaBits: nat)
    ensures StoreLoop(es, deltaBits, HashArrayBytes(|es|), 0, []) == Stored(StoreHashes(es, deltaBits, HashArrayBytes(|es|)))
  {
    var r := StoreLoop(es, deltaBits, HashArrayBytes(|es|), 0, []);
    var h := StoreHashes(es, deltaBits, HashArrayBytes(|es|));
    assert r.Stored?;
    assert r.hashes == h;
  }

  /**
   * The hash array: entry i shifted right by deltaBits, stored into a
   * block of size bytes, which must hold all of them.
   */
  function StoreHashes(es: seq<u64>, deltaBits: nat, size: nat): (r: seq<u64>)
    requires Holds(|es|, size)
    ensures |r| == |es|
    ensures forall i :: 0 <= i < |es| ==> r[i] == es[i] / Pow2(deltaBits)
    decreases |es|
  {
    if es == [] then []
    else
      var x := es[|es| - 1];
      ShrLe(x, deltaBits);
      ShrIsDiv(x, deltaBits);
      StoreHashes(es[..|es| - 1], deltaBits, size) + [Shr(x, deltaBits)]
  }

  /** The values the digest encodes: the stored hashes sorted without repeats. */
  function DigestValues(es: seq<u64>, deltaBits: nat): seq<u64>
  {
    Uniq(Sort(StoreHashes(es, deltaBits, HashArrayBytes(|es|))))
  }

  /**
   * The digest values are strictly increasing, and a value is among them
   * exactly when it is some diary entry with its low deltaBits bits cut off.
   */
  lemma DigestValuesSpec(es: seq<u64>, deltaBits: nat)
    ensures Increasing(DigestValues(es, deltaBits))
    ensures forall x :: x in DigestValues(es, deltaBits) <==>
              exists i :: 0 <= i < |es| && x == es[i] / Pow2(deltaBits)
  {
    var hs := StoreHashes(es, deltaBits, HashArrayBytes(|es|));
    var sorted := Sort(hs);
    UniqValues(sorted);
    UniqIncreasing(sorted);
    forall x
      ensures x in sorted <==> x in hs
    {
      assert x in sorted <==> x in multiset(sorted);
      assert x in hs <==> x in multiset(hs);
    }
    forall x
      ensures x in hs <==> exists i :: 0 <= i < |es| && x == es[i] / Pow2(deltaBits)
    {
      if x in hs {
        var i :| 0 <= i < |hs| && hs[i] == x;
        assert x == es[i] / Pow2(deltaBits);
      }
      if exists i :: 0 <= i < |es| && x == es[i] / Pow2(deltaBits) {
        var i :| 0 <= i < |es| && x == es[i] / Pow2(deltaBits);
        assert hs[i] == x;
      }
    }
  }

  /* ---------------- the encoding loop ---------------- */

  /** gset_encode_next for each value in turn, from the previous value last. */
  function EncodeAll(e: Encoder, last: u64, vs: seq<u64>, log2p: nat): (r: Encoder)
    requires Wf(e)
    ensures Wf(r)
    decreases |vs|
  {
    if vs == [] then e
    else EncodeAll(EncodeBits(e, Code((vs[0] - last) % U64, log2p)), vs[0], vs[1..], log2p)
  }

  /** Encoding value by value is encoding the whole Golomb-Rice bit string. */
  lemma {:induction false} EncodeAllIsEncodeSet(e: Encoder, last: u64, vs: seq<u64>, log2p: nat)
    requires Wf(e)
    ensures EncodeAll(e, last, vs, log2p) == EncodeBits(e, EncodeSet(last, vs, log2p))
    decreases |vs|
  {
    if vs != [] {
      var c := Code((vs[0] - last) % U64, log2p);
      EncodeAllIsEncodeSet(EncodeBits(e, c), vs[0], vs[1..], log2p);
      EncodeBitsAppend(e, c, EncodeSet(vs[0], vs[1..], log2p));
    }
  }

  /* ---------------- the digest ---------------- */

  /** The parameters h2_push_diary_digest_get derives. */
  datatype Params = Params(log2n: byte, log2p: byte, deltaBits: nat)

  /** The requirements on a diary and maxP that keep the C arithmetic exact. */
  predicate InRange(d: Diary, maxP: int) {
    Valid(d) && |d.entries| <= 0x4000_0000 && maxP <= 0x4000_0000
    && Log2(CeilPowerOf2(|d.entries|)) <= d.maskBits
  }

  /**
   * log2n is the exponent of N, the power of two above the entry count;
   * log2p is the exponent of the ceiling of maxP, unless fewer bits remain
   * of mask_bits; deltaBits are the hash bits cut off.
   */
  function ParamsOf(d: Diary, maxP: int): (r: Params)
    requires InRange(d, maxP)
    ensures Pow2(r.log2n) == CeilPowerOf2(|d.entries|)
    ensures Pow2(r.log2p) <= CeilPowerOf2(maxP)
    ensures r.log2p == d.maskBits - r.log2n || Pow2(r.log2p) == CeilPowerOf2(maxP)
    ensures r.log2n + r.log2p + r.deltaBits == d.maskBits
  {
    var n := CeilPowerOf2(|d.entries|);
    var pmax := CeilPowerOf2(maxP);
    Log2CeilBound(|d.entries|);
    Log2CeilBound(maxP);
    Log2OfPow2(n);
    Log2OfPow2(pmax);
    var log2n := Log2(n);
    var log2p := Min(d.maskBits - log2n, Log2(pmax));
    Pow2Mono(log2p, Log2(pmax));
    Params(log2n, log2p, d.maskBits - (log2n + log2p))
  }

  /** The authority check: no authority on either side, "*", or the same one. */
  predicate Covers(authority: Option<string>, diaryAuthority: Option<string>) {
    authority.None? || diaryAuthority.None? || authority.value == "*"
    || diaryAuthority.value == authority.value
  }

  /**
   * h2_push_diary_digest_get: the digest bytes (pdata with length plen).
   * The hash array is allocated at its corrected size.
   */
  function DigestGet(d: Diary, maxP: int, authority: Option<string>): (r: seq<byte>)
    requires InRange(d, maxP)
    ensures |r| >= 2
    ensures Pow2(r[0]) == CeilPowerOf2(|d.entries|)
    ensures r[0] + r[1] <= d.maskBits && Pow2(r[1]) <= CeilPowerOf2(maxP)
    ensures !Covers(authority, d.authority) ==> |r| == 2
  {
    var ps := ParamsOf(d, maxP);
    var h: seq<byte> := [ps.log2n, ps.log2p];
    var start := Encoder(h, 1, 8);
    var vs := DigestValues(d.entries, ps.deltaBits);
    var e := if Covers(authority, d.authority) then EncodeAll(start, 0, vs, ps.log2p) else start;
    assert start == State(h, []);
    EncodeAllIsEncodeSet(start, 0, vs, ps.log2p);
    EncodeBitsState(h, EncodeSet(0, vs, ps.log2p));
    e.data[..e.offset + 1]
  }

  /**
   * Reading a digest back: the two header bytes, then the Golomb-Rice
   * decoded values of the remaining bits.
   */
  function DecodeDigest(data: seq<byte>): (r: Option<(nat, nat, seq<int>)>)
    ensures r.Some? <==> |data| >= 2
  {
    if |data| < 2 then None
    else Some((data[0], data[1], DecodeSet(Unpack(data[2..]), 0, data[1])))
  }

  /** The digest is the header followed by the packed Golomb-Rice bits. */
  lemma DigestBytesLayout(d: Diary, maxP: int, authority: Option<string>)
    requires InRange(d, maxP)
    ensures var ps := ParamsOf(d, maxP);
            var bits := if Covers(authority, d.authority)
                        then EncodeSet(0, DigestValues(d.entries, ps.deltaBits), ps.log2p) else [];
            DigestGet(d, maxP, authority) == [ps.log2n, ps.log2p] + Pack(bits)
  {
    var ps := ParamsOf(d, maxP);
    var h: seq<byte> := [ps.log2n, ps.log2p];
    var start := Encoder(h, 1, 8);
    assert start == State(h, []);
    if Covers(authority, d.authority) {
      var vs := DigestValues(d.entries, ps.deltaBits);
      EncodeAllIsEncodeSet(start, 0, vs, ps.log2p);
      EncodeBitsState(h, EncodeSet(0, vs, ps.log2p));
    }
  }

  /** Decoding the digest gives back the header and the encoded values. */
  lemma DigestRoundTrip(d: Diary, maxP: int, authority: Option<string>)
    requires InRange(d, maxP)
    ensures var ps := ParamsOf(d, maxP);
            DecodeDigest(DigestGet(d, maxP, authority))
            == Some((ps.log2n as nat, ps.log2p as nat,
                     if Covers(authority, d.authority)
                     then DigestValues(d.entries, ps.deltaBits) else []))
  {
    var ps := ParamsOf(d, maxP);
    var covers := Covers(authority, d.authority);
    var vs := if covers then DigestValues(d.entries, ps.deltaBits) else [];
    var bits := if covers then EncodeSet(0, vs, ps.log2p) else [];
    var r := DigestGet(d, maxP, authority);
    assert r == [ps.log2n, ps.log2p] + Pack(bits) by {
      DigestBytesLayout(d, maxP, authority);
    }
    assert r[2..] == Pack(bits);
    assert DecodeSet(Unpack(Pack(bits)), 0, ps.log2p) == vs by {
      UnpackPack(bits);
      if covers {
        DigestValuesSpec(d.entries, ps.deltaBits);
        IncreasingAscending(0, vs);
        DecodeEncodeSet(0, vs, ps.log2p, PadLen(|bits|));
      } else {
        DecodePadding(PadLen(|bits|), 0, ps.log2p);
      }
    }
  }

  /**
   * What a client learns from the digest: when the authority matches, the
   * decoded values ascend strictly and are exactly the diary hashes cut to
   * their top log2n + log2p of mask_bits bits; otherwise there are none.
   */
  lemma DigestDescribesDiary(d: Diary, maxP: int, authority: Option<string>)
    requires InRange(d, maxP)
    ensures var r := DigestGet(d, maxP, authority);
            var vals := DecodeSet(Unpack(r[2..]), 0, r[1]);
            var cut := d.maskBits - (r[0] + r[1]);
            && (Covers(authority, d.authority) ==>
                  Increasing(vals)
                  && forall x :: x in vals <==>
                       exists i :: 0 <= i < |d.entries| && x == d.entries[i] / Pow2(cut))
            && (!Covers(authority, d.authority) ==> vals == [])
  {
    var ps := ParamsOf(d, maxP);
    var r := DigestGet(d, maxP, authority);
    var vals := DecodeSet(Unpack(r[2..]), 0, r[1]);
    assert r[0] == ps.log2n && r[1] == ps.log2p
           && vals == (if Covers(authority, d.authority) then DigestValues(d.entries, ps.deltaBits) else []) by {
      DigestRoundTrip(d, maxP, authority);
    }
    assert d.maskBits - (r[0] + r[1]) == ps.deltaBits;
    if Covers(authority, d.authority) {
      DigestValuesSpec(d.entries, ps.deltaBits);
    }
  }
}
