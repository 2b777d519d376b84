/**
 * The push diary of modules/http2/h2_push.c: a bounded list of 64-bit
 * hashes of the resources already pushed on a connection, most recently
 * used last. A push whose hash is in the diary is not pushed again;
 * otherwise its hash is appended, evicting the oldest entries when the
 * diary is full.
 *
 * SHA-256 and apr_hashfunc_default are parameters of the hash functions:
 * `sha` maps the text fed to the digest to its digest bytes, `aprh` maps a
 * string to its 32-bit APR hash. The H2_OPENSSL switch is taken as set, so
 * both digest types are available.
 */
module PushDiary {
  import opened Common
  import opened Push

  const U64: int := 0x1_0000_0000_0000_0000

  /** An apr_uint64_t. */
  type u64 = x: int | 0 <= x < 0x1_0000_0000_0000_0000

  function Pow2(k: nat): (r: nat)
    ensures r >= 1
  {
    if k == 0 then 1 else 2 * Pow2(k - 1)
  }

  predicate IsPow2(x: int)
    decreases if x < 0 then 0 else x
  {
    x == 1 || (x >= 2 && x % 2 == 0 && IsPow2(x / 2))
  }

  /** h2_log2: the position of the highest set bit, 0 for 0. */
  function Log2(n: nat): (r: nat)
  {
    if n <= 1 then 0 else 1 + Log2(n / 2)
  }

  /** On powers of two h2_log2 is exact. */
  lemma {:induction false} Log2OfPow2(x: int)
    requires IsPow2(x)
    ensures Pow2(Log2(x)) == x
    decreases if x < 0 then 0 else x
  {
    if x != 1 {
      Log2OfPow2(x / 2);
    }
  }

  lemma {:induction false} Pow2IsPow2(k: nat)
    ensures IsPow2(Pow2(k)) && Log2(Pow2(k)) == k
  {
    if k > 0 {
      Pow2IsPow2(k - 1);
    }
  }

  /**
   * ceil_power_of_2 for n <= 2^30 (above that the 32-bit arithmetic of the
   * C function overflows): 2 for n <= 2, otherwise the least power of two
   * that is at least n. SmearBits and SmearIsCeil show that the bit
   * smearing of the C function computes that power of two.
   */
  function CeilPowerOf2(n: int): (r: nat)
    requires n <= 0x4000_0000
    ensures IsPow2(r) && r >= 2 && r >= n
    ensures n > 2 ==> r / 2 < n
    ensures n <= 2 ==> r == 2
    ensures n > 2 ==> r < 2 * n
    decreases if n < 0 then 0 else n
  {
    if n <= 2 then 2 else 2 * CeilPowerOf2((n + 1) / 2)
  }

  /** A power of two of at least 2 is its own ceiling. */
  lemma {:induction false} CeilPowerOf2OfPow2(n: int)
    requires IsPow2(n) && 2 <= n <= 0x4000_0000
    ensures CeilPowerOf2(n) == n
    decreases n
  {
    if n > 2 {
      CeilPowerOf2OfPow2(n / 2);
    }
  }

  /** `n |= n >> 1; ... n |= n >> 16` on the 32-bit value n. */
  function Smear(m: bv32): bv32
  {
    var m1 := m | (m >> 1);
    var m2 := m1 | (m1 >> 2);
    var m3 := m2 | (m2 >> 4);
    var m4 := m3 | (m3 >> 8);
    m4 | (m4 >> 16)
  }

  /**
   * The C computation for 2 < n <= 2^30, with m = n - 1: smearing m and
   * adding one gives a power of two above m whose half is at most m, that
   * is, the least power of two that is at least n.
   */
  lemma SmearBits(m: bv32)
    requires 2 <= m < 0x4000_0000
    ensures var r := Smear(m) + 1; r & (r - 1) == 0 && r > m && r >> 1 <= m
  {
  }

  /** Between 2^k and 2^(k+1) the ceiling is 2^(k+1). */
  lemma {:induction false} CeilBand(n: int, k: nat)
    requires 1 <= k < 30 && Pow2(k) < n <= Pow2(k + 1) && n <= 0x4000_0000
    ensures CeilPowerOf2(n) == Pow2(k + 1)
  {
    if k > 1 {
      CeilBand((n + 1) / 2, k - 1);
    }
  }

  /** The powers of two up to 2^30. */
  lemma Pow2Table()
    ensures Pow2(1) == 0x2 && Pow2(2) == 0x4 && Pow2(3) == 0x8 && Pow2(4) == 0x10 && Pow2(5) == 0x20
    ensures Pow2(6) == 0x40 && Pow2(7) == 0x80 && Pow2(8) == 0x100 && Pow2(9) == 0x200 && Pow2(10) == 0x400
    ensures Pow2(11) == 0x800 && Pow2(12) == 0x1000 && Pow2(13) == 0x2000 && Pow2(14) == 0x4000 && Pow2(15) == 0x8000
    ensures Pow2(16) == 0x10000 && Pow2(17) == 0x20000 && Pow2(18) == 0x40000 && Pow2(19) == 0x80000 && Pow2(20) == 0x100000
    ensures Pow2(21) == 0x200000 && Pow2(22) == 0x400000 && Pow2(23) == 0x800000 && Pow2(24) == 0x1000000 && Pow2(25) == 0x2000000
    ensures Pow2(26) == 0x4000000 && Pow2(27) == 0x8000000 && Pow2(28) == 0x10000000 && Pow2(29) == 0x20000000 && Pow2(30) == 0x40000000
  {
  }

  /** SmearIsCeil for m below 2^11: in each band [2^k, 2^(k+1)) both sides are 2^(k+1). */
  lemma SmearIsCeilLow(m: bv32)
    requires 0x2 <= m < 0x800
    ensures (Smear(m) + 1) as int == CeilPowerOf2(m as int + 1)
  {
    var n := m as int + 1;
    Pow2Table();
    if m < 0x4 {
      assert Smear(m) + 1 == 0x4;
      CeilBand(n, 1);
    } else if m < 0x8 {
      assert Smear(m) + 1 == 0x8;
      CeilBand(n, 2);
    } else if m < 0x10 {
      assert Smear(m) + 1 == 0x10;
      CeilBand(n, 3);
    } else if m < 0x20 {
      assert Smear(m) + 1 == 0x20;
      CeilBand(n, 4);
    } else if m < 0x40 {
      assert Smear(m) + 1 == 0x40;
      CeilBand(n, 5);
    } else if m < 0x80 {
      assert Smear(m) + 1 == 0x80;
      CeilBand(n, 6);
    } else if m < 0x100 {
      assert Smear(m) + 1 == 0x100;
      CeilBand(n, 7);
    } else if m < 0x200 {
      assert Smear(m) + 1 == 0x200;
      CeilBand(n, 8);
    } else if m < 0x400 {
      assert Smear(m) + 1 == 0x400;
      CeilBand(n, 9);
    } else {
      assert Smear(m) + 1 == 0x800;
      CeilBand(n, 10);
    }
  }

  /** SmearIsCeil for m in [2^11, 2^21). */
  lemma SmearIsCeilMid(m: bv32)
    requires 0x800 <= m < 0x200000
    ensures (Smear(m) + 1) as int == CeilPowerOf2(m as int + 1)
  {
    var n := m as int + 1;
    Pow2Table();
    if m < 0x1000 {
      assert Smear(m) + 1 == 0x1000;
      CeilBand(n, 11);
    } else if m < 0x2000 {
      assert Smear(m) + 1 == 0x2000;
      CeilBand(n, 12);
    } else if m < 0x4000 {
      assert Smear(m) + 1 == 0x4000;
      CeilBand(n, 13);
    } else if m < 0x8000 {
      assert Smear(m) + 1 == 0x8000;
      CeilBand(n, 14);
    } else if m < 0x10000 {
      assert Smear(m) + 1 == 0x10000;
      CeilBand(n, 15);
    } else if m < 0x20000 {
      assert Smear(m) + 1 == 0x20000;
      CeilBand(n, 16);
    } else if m < 0x40000 {
      assert Smear(m) + 1 == 0x40000;
      CeilBand(n, 17);
    } else if m < 0x80000 {
      assert Smear(m) + 1 == 0x80000;
      CeilBand(n, 18);
    } else if m < 0x100000 {
      assert Smear(m) + 1 == 0x100000;
      CeilBand(n, 19);
    } else {
      assert Smear(m) + 1 == 0x200000;
      CeilBand(n, 20);
    }
  }

  /** SmearIsCeil for m in [2^21, 2^30). */
  lemma SmearIsCeilHigh(m: bv32)
    requires 0x200000 <= m < 0x40000000
    ensures (Smear(m) + 1) as int == CeilPowerOf2(m as int + 1)
  {
    var n := m as int + 1;
    Pow2Table();
    if m < 0x400000 {
      assert Smear(m) + 1 == 0x400000;
      CeilBand(n, 21);
    } else if m < 0x800000 {
      assert Smear(m) + 1 == 0x800000;
      CeilBand(n, 22);
    } else if m < 0x1000000 {
      assert Smear(m) + 1 == 0x1000000;
      CeilBand(n, 23);
    } else if m < 0x2000000 {
      assert Smear(m) + 1 == 0x2000000;
      CeilBand(n, 24);
    } else if m < 0x4000000 {
      assert Smear(m) + 1 == 0x4000000;
      CeilBand(n, 25);
    } else if m < 0x8000000 {
      assert Smear(m) + 1 == 0x8000000;
      CeilBand(n, 26);
    } else if m < 0x10000000 {
      assert Smear(m) + 1 == 0x10000000;
      CeilBand(n, 27);
    } else if m < 0x20000000 {
      assert Smear(m) + 1 == 0x20000000;
      CeilBand(n, 28);
    } else {
      assert Smear(m) + 1 == 0x40000000;
      CeilBand(n, 29);
    }
  }

  /**
   * The bit smearing of ceil_power_of_2 computes CeilPowerOf2: for
   * m = n - 1 with 2 < n <= 2^30, smearing m and adding one gives the
   * least power of two that is at least n.
   */
  lemma SmearIsCeil(m: bv32)
    requires 2 <= m < 0x4000_0000
    ensures (Smear(m) + 1) as int == CeilPowerOf2(m as int + 1)
  {
    if m < 0x800 {
      SmearIsCeilLow(m);
    } else if m < 0x20_0000 {
      SmearIsCeilMid(m);
    } else {
      SmearIsCeilHigh(m);
    }
  }

  /** The digest types of h2_push.h. */
  datatype DigestType = DigestSha256 | DigestAprHash

  /**
   * An h2_push_diary: entries oldest first, the capacity N and its initial
   * value NMax, the number of significant hash bits, the authority the
   * diary is about (never set by diary_create) and the digest type.
   */
  datatype Diary = Diary(
    entries: seq<u64>, n: nat, nMax: nat, maskBits: nat,
    authority: Option<string>, dtype: DigestType)

  /** What diary_create establishes and every operation keeps. */
  predicate Valid(d: Diary) {
    d.n >= 2 && |d.entries| <= d.n && 1 <= d.maskBits <= 64
  }

  /** diary_create: None (NULL) unless N > 0. */
  function DiaryCreate(dtype: DigestType, n: int): (r: Option<Diary>)
    requires n <= 0x4000_0000
    ensures r.Some? <==> n > 0
    ensures r.Some? ==> Valid(r.value) && r.value.entries == [] && r.value.dtype == dtype
    ensures r.Some? ==> IsPow2(r.value.n) && r.value.n >= n && r.value.nMax == r.value.n
    ensures r.Some? && n <= 2 ==> r.value.n == 2
    ensures r.Some? && n > 2 ==> r.value.n < 2 * n
    ensures r.Some? ==> r.value.maskBits == 64 && r.value.authority.None?
  {
    if n > 0 then
      var size := CeilPowerOf2(n);
      Some(Diary([], size, size, 64, None, dtype))
    else None
  }

  /** A diary created for a power-of-two size of at least 2 holds that many entries. */
  lemma DiaryCreateSize(dtype: DigestType, n: int)
    requires IsPow2(n) && 2 <= n <= 0x4000_0000
    ensures DiaryCreate(dtype, n).Some? && DiaryCreate(dtype, n).value.n == n
  {
    CeilPowerOf2OfPow2(n);
  }

  /** The search loop of h2_push_diary_find over the entries, from the end. */
  function LastIndexOf(es: seq<u64>, h: u64): (r: int)
    ensures -1 <= r < |es|
    ensures r == -1 <==> h !in es
    ensures r >= 0 ==> es[r] == h && forall j :: r < j < |es| ==> es[j] != h
  {
    if es == [] then -1
    else if es[|es| - 1] == h then |es| - 1
    else LastIndexOf(es[..|es| - 1], h)
  }

  /** h2_push_diary_find: -1 when there is no diary or the hash is not in it. */
  function Find(d: Option<Diary>, h: u64): (r: int)
    ensures d.None? ==> r == -1
    ensures d.Some? ==> (r == -1 <==> h !in d.value.entries)
    ensures r >= 0 ==> d.Some? && r < |d.value.entries| && d.value.entries[r] == h
    ensures r >= 0 ==> forall j :: r < j < |d.value.entries| ==> d.value.entries[j] != h
  {
    if d.Some? then LastIndexOf(d.value.entries, h) else -1
  }

  /**
   * move_to_last: entry idx moves to the end and the entries after it move
   * up by one; nothing happens when idx is the last index or beyond.
   */
  function MoveToLast(es: seq<u64>, idx: nat): (r: seq<u64>)
    ensures |r| == |es|
    ensures idx + 1 < |es| ==> r[|es| - 1] == es[idx]
    ensures idx + 1 < |es| ==> forall j :: 0 <= j < idx ==> r[j] == es[j]
    ensures idx + 1 < |es| ==> forall j :: idx <= j < |es| - 1 ==> r[j] == es[j + 1]
    ensures idx + 1 >= |es| ==> r == es
  {
    if |es| == 0 then es
    else if idx < |es| - 1 then es[..idx] + es[idx + 1..] + [es[idx]]
    else es
  }

  /** Moving an entry to the end only reorders the entries. */
  lemma MoveToLastPermutes(es: seq<u64>, idx: nat)
    ensures multiset(MoveToLast(es, idx)) == multiset(es)
  {
    if idx + 1 < |es| {
      assert es == es[..idx] + [es[idx]] + es[idx + 1..];
    }
  }

  /** remove_first: drops entry 0, but never the only entry. */
  function RemoveFirst(es: seq<u64>): seq<u64>
  {
    if |es| - 1 > 0 then es[1..] else es
  }

  /**
   * The loop `while (nelts >= N) remove_first(diary)` of
   * h2_push_diary_append: it keeps the newest N - 1 entries. It ends only
   * for N >= 2, which every diary has.
   */
  function Evict(es: seq<u64>, n: nat): (r: seq<u64>)
    requires n >= 2
    ensures r == es[|es| - Min(|es|, n - 1)..]
    decreases |es|
  {
    if |es| >= n then Evict(RemoveFirst(es), n) else es
  }

  function Min(a: int, b: int): int {
    if a <= b then a else b
  }

  /** h2_push_diary_append on the entries. */
  function AppendEntry(es: seq<u64>, n: nat, h: u64): (r: seq<u64>)
    requires n >= 2
    ensures |r| <= n && |r| == Min(|es|, n - 1) + 1
    ensures r[|r| - 1] == h && r[..|r| - 1] == es[|es| - (|r| - 1)..]
  {
    var kept := Evict(es, n);
    assert (kept + [h])[..|kept|] == kept;
    kept + [h]
  }

  /**
   * One turn of the loop of h2_push_diary_update: the entries afterwards
   * and whether the push is new (its hash was absent).
   */
  function Step(es: seq<u64>, n: nat, h: u64): (r: (seq<u64>, bool))
    requires n >= 2
    ensures r.1 <==> h !in es
    ensures |r.0| > 0 && r.0[|r.0| - 1] == h
    ensures |es| <= n ==> |r.0| <= n
  {
    var idx := LastIndexOf(es, h);
    if idx >= 0 then (MoveToLast(es, idx), false)
    else
      var es' := AppendEntry(es, n, h);
      (es', true)
  }

  /**
   * The update loop over the hashes hs of a batch of pushes: the entries
   * afterwards and, for each push, whether it is new.
   */
  function Run(es: seq<u64>, n: nat, hs: seq<u64>): (r: (seq<u64>, seq<bool>))
    requires n >= 2
    ensures |r.1| == |hs|
    decreases |hs|
  {
    if hs == [] then (es, [])
    else
      var prev := Run(es, n, hs[..|hs| - 1]);
      var step := Step(prev.0, n, hs[|hs| - 1]);
      (step.0, prev.1 + [step.1])
  }

  /** The diary never holds more than N entries. */
  lemma {:induction false} RunBounded(es: seq<u64>, n: nat, hs: seq<u64>)
    requires n >= 2 && |es| <= n
    ensures |Run(es, n, hs).0| <= n
    decreases |hs|
  {
    if hs != [] {
      RunBounded(es, n, hs[..|hs| - 1]);
    }
  }

  /**
   * A push is new exactly when its hash is absent from the diary as the
   * pushes before it in the batch have left it.
   */
  lemma {:induction false} RunFresh(es: seq<u64>, n: nat, hs: seq<u64>)
    requires n >= 2
    ensures forall i :: 0 <= i < |hs| ==> (Run(es, n, hs).1[i] <==> hs[i] !in Run(es, n, hs[..i]).0)
    decreases |hs|
  {
    if hs != [] {
      var init := hs[..|hs| - 1];
      RunFresh(es, n, init);
      forall i | 0 <= i < |hs|
        ensures Run(es, n, hs).1[i] <==> hs[i] !in Run(es, n, hs[..i]).0
      {
        if i < |hs| - 1 {
          assert init[..i] == hs[..i];
          assert hs[i] == init[i];
        } else {
          assert hs[..i] == init;
        }
      }
    }
  }

  /** The last k entries (all of them when there are fewer). */
  function Tail(es: seq<u64>, k: nat): seq<u64>
  {
    if |es| >= k then es[|es| - k..] else es
  }

  /** An entry among the last k stays among the last k + 1 when an entry moves to the end. */
  lemma MoveKeepsTail(es: seq<u64>, idx: nat, k: nat, p: nat)
    requires |es| - Min(|es|, k) <= p < |es|
    ensures es[p] in Tail(MoveToLast(es, idx), k + 1)
  {
    var r := MoveToLast(es, idx);
    var rlo := |r| - Min(|r|, k + 1);
    var q := if idx + 1 >= |es| || p < idx then p else if p == idx then |r| - 1 else p - 1;
    assert r[q] == es[p];
    assert Tail(r, k + 1)[q - rlo] == r[q];
  }

  /** An entry among the last k < N stays among the last k + 1 when a hash is appended. */
  lemma AppendKeepsTail(es: seq<u64>, n: nat, h: u64, k: nat, p: nat)
    requires n >= 2 && k + 1 <= n
    requires |es| - Min(|es|, k) <= p < |es|
    ensures es[p] in Tail(AppendEntry(es, n, h), k + 1)
  {
    var r := AppendEntry(es, n, h);
    ShiftKeepsTail(es, r, |r| - 1, k, p);
  }

  /** An entry among the last k of es stays among the last k + 1 of r, which is a suffix of es and one more. */
  lemma ShiftKeepsTail(es: seq<u64>, r: seq<u64>, m: nat, k: nat, p: nat)
    requires m <= |es| && |r| == m + 1 && r[..m] == es[|es| - m..]
    requires Min(|es|, k) <= m
    requires |es| - Min(|es|, k) <= p < |es|
    ensures es[p] in Tail(r, k + 1)
  {
    var rlo := |r| - Min(|r|, k + 1);
    var q := p - (|es| - m);
    assert rlo <= q < m;
    assert r[q] == es[p] by {
      PrefixIndex(r, es, m, |es| - m, q);
    }
    assert Tail(r, k + 1)[q - rlo] == r[q] by {
      TailIsSlice(r, k + 1);
    }
  }

  lemma PrefixIndex<T>(r: seq<T>, s: seq<T>, m: nat, off: nat, q: nat)
    requires m <= |r| && off <= |s| && r[..m] == s[off..] && q < m
    ensures r[q] == s[off + q]
  {
    assert r[..m][q] == r[q];
  }

  lemma LastInTail(es: seq<u64>, k: nat)
    requires es != [] && k > 0
    ensures es[|es| - 1] in Tail(es, k)
  {
    var t := Tail(es, k);
    assert t[|t| - 1] == es[|es| - 1];
  }

  lemma TailIsSlice(es: seq<u64>, k: nat)
    ensures Tail(es, k) == es[|es| - Min(|es|, k)..]
  {
    if |es| < k {
      assert es[0..] == es;
    }
  }

  /** A turn keeps the entries of the last k among the last k + 1. */
  lemma StepKeepsTail(es: seq<u64>, n: nat, h: u64, k: nat, x: u64)
    requires n >= 2 && k + 1 <= n
    requires x in Tail(es, k)
    ensures x in Tail(Step(es, n, h).0, k + 1)
  {
    var lo := |es| - Min(|es|, k);
    var j :| 0 <= j < |Tail(es, k)| && Tail(es, k)[j] == x;
    var p := lo + j;
    assert es[p] == x;
    var idx := LastIndexOf(es, h);
    if idx >= 0 {
      MoveKeepsTail(es, idx, k, p);
    } else {
      AppendKeepsTail(es, n, h, k, p);
    }
  }

  /** While a batch is no longer than N, every hash it has seen is among the newest entries. */
  lemma {:induction false} RunKeepsBatch(es: seq<u64>, n: nat, hs: seq<u64>)
    requires n >= 2 && |hs| <= n
    ensures forall i :: 0 <= i < |hs| ==> hs[i] in Tail(Run(es, n, hs).0, |hs|)
    decreases |hs|
  {
    if hs != [] {
      var k := |hs| - 1;
      var init := hs[..k];
      RunKeepsBatch(es, n, init);
      var prev := Run(es, n, init).0;
      var r := Step(prev, n, hs[k]).0;
      assert Run(es, n, hs).0 == r;
      forall i | 0 <= i < |hs|
        ensures hs[i] in Tail(r, |hs|)
      {
        if i < k {
          assert hs[i] in Tail(prev, k) by {
            assert hs[i] == init[i];
          }
          StepKeepsTail(prev, n, hs[k], k, hs[i]);
          assert k + 1 == |hs|;
        } else {
          assert i == k && r[|r| - 1] == hs[k];
          LastInTail(r, |hs|);
        }
      }
    }
  }

  /**
   * A hash repeated within a batch of at most N pushes is pushed at most
   * once: the later push finds the earlier one's entry.
   */
  lemma RepeatSuppressed(es: seq<u64>, n: nat, hs: seq<u64>, i: nat, j: nat)
    requires n >= 2 && |hs| <= n
    requires i < j < |hs| && hs[i] == hs[j]
    ensures !Run(es, n, hs).1[j]
  {
    RunFresh(es, n, hs);
    RunKeepsBatch(es, n, hs[..j]);
    assert hs[..j][i] == hs[i];
  }

  /** The pushes whose flag is set, in order. */
  function Select<T>(ps: seq<T>, flags: seq<bool>): (r: seq<T>)
    requires |flags| == |ps|
    ensures |r| <= |ps|
    ensures forall x :: x in r ==> x in ps
    ensures r == [] <==> true !in flags
  {
    if ps == [] then []
    else if flags[0] then [ps[0]] + Select(ps[1..], flags[1..])
    else Select(ps[1..], flags[1..])
  }

  /**
   * The loop of calc_sha256_hash from an accumulated value: `val = val * 256
   * + hash[i]` in 64-bit unsigned arithmetic.
   */
  function FoldFrom(acc: u64, d: seq<byte>): u64
    decreases |d|
  {
    if d == [] then acc else FoldFrom((acc * 256 + d[0] as int) % U64, d[1..])
  }

  function Fold(d: seq<byte>): u64 { FoldFrom(0, d) }

  /** The bytes read as one big-endian number, starting from acc. */
  function BigEndianFrom(acc: int, d: seq<byte>): int
    decreases |d|
  {
    if d == [] then acc else BigEndianFrom(acc * 256 + d[0] as int, d[1..])
  }

  function Pow256(k: nat): (r: nat)
    ensures r >= 1
  {
    if k == 0 then 1 else 256 * Pow256(k - 1)
  }

  lemma {:induction false} FoldFromAppend(acc: u64, a: seq<byte>, b: seq<byte>)
    ensures FoldFrom(acc, a + b) == FoldFrom(FoldFrom(acc, a), b)
    decreases |a|
  {
    if a == [] {
      assert a + b == b;
    } else {
      assert (a + b)[1..] == a[1..] + b;
      FoldFromAppend((acc * 256 + a[0] as int) % U64, a[1..], b);
    }
  }

  /** The 64-bit fold is the exact big-endian value reduced modulo 2^64. */
  lemma {:induction false} FoldIsMod(a: nat, d: seq<byte>)
    ensures FoldFrom(a % U64, d) == BigEndianFrom(a, d) % U64
    decreases |d|
  {
    if d != [] {
      assert ((a % U64) * 256 + d[0] as int) % U64 == (a * 256 + d[0] as int) % U64;
      FoldIsMod(a * 256 + d[0] as int, d[1..]);
    }
  }

  lemma {:induction false} BigEndianShift(a: int, d: seq<byte>)
    ensures BigEndianFrom(a, d) == a * Pow256(|d|) + BigEndianFrom(0, d)
    decreases |d|
  {
    if d != [] {
      var p := Pow256(|d| - 1);
      BigEndianShift(a * 256 + d[0] as int, d[1..]);
      BigEndianShift(d[0] as int, d[1..]);
      assert (a * 256 + d[0] as int) * p == a * (256 * p) + d[0] as int * p;
    }
  }

  lemma {:induction false} BigEndianBound(d: seq<byte>)
    ensures 0 <= BigEndianFrom(0, d) < Pow256(|d|)
    decreases |d|
  {
    if d != [] {
      BigEndianShift(d[0] as int, d[1..]);
      BigEndianBound(d[1..]);
      var p := Pow256(|d| - 1);
      MulMono(d[0] as int, 255, p);
    }
  }

  lemma MulMono(a: int, b: int, c: nat)
    requires a <= b
    ensures a * c <= b * c
  {
  }

  lemma Pow256Eight()
    ensures Pow256(8) == U64
  {
    assert Pow256(2) == 65536;
    assert Pow256(4) == 65536 * 65536 by {
      assert Pow256(4) == 256 * 256 * Pow256(2);
    }
    assert Pow256(8) == Pow256(4) * Pow256(4) by {
      assert Pow256(8) == 256 * 256 * Pow256(6);
      assert Pow256(6) == 256 * 256 * Pow256(4);
    }
  }

  /** A multiple of 2^64 plus a value below 2^64 reduces to that value. */
  lemma ModDropsHigh(f: int, x: int)
    requires 0 <= x < U64
    ensures (f * U64 + x) % U64 == x
  {
  }

  /** Folding on from any 64-bit value, eight bytes give their big-endian value. */
  lemma FoldLast8From(f: u64, b: seq<byte>)
    requires |b| == 8
    ensures FoldFrom(f, b) == BigEndianFrom(0, b)
  {
    assert f % U64 == f;
    FoldIsMod(f, b);
    BigEndianShift(f, b);
    Pow256Eight();
    BigEndianBound(b);
    ModDropsHigh(f, BigEndianFrom(0, b));
  }

  /** Only the last 8 digest bytes survive, read as a big-endian number. */
  lemma FoldKeepsLast8(d: seq<byte>)
    requires |d| >= 8
    ensures Fold(d) == BigEndianFrom(0, d[|d| - 8..])
  {
    var a, b := d[..|d| - 8], d[|d| - 8..];
    assert d == a + b;
    FoldFromAppend(0, a, b);
    FoldLast8From(FoldFrom(0, a), b);
  }

  /** calc_apr_hash: the three 32-bit hashes combined into one 64-bit value. */
  function AprHashBits(aprh: string -> bv32, scheme: string, authority: string, path: string): bv64
  {
    ((aprh(scheme) as bv64) << 32) ^ ((aprh(authority) as bv64) << 16) ^ (aprh(path) as bv64)
  }

  /**
   * The top 16 bits of calc_apr_hash come from the scheme's hash alone and
   * the low 16 bits from the path's hash alone.
   */
  lemma AprHashParts(aprh: string -> bv32, scheme: string, authority: string, path: string)
    ensures AprHashBits(aprh, scheme, authority, path) >> 48 == (aprh(scheme) >> 16) as bv64
    ensures AprHashBits(aprh, scheme, authority, path) & 0xFFFF == (aprh(path) & 0xFFFF) as bv64
  {
  }

  /**
   * The diary's dcalc for a push: calc_sha256_hash over
   * scheme "://" authority path (`>>` on the unsigned value is division by
   * a power of two), or calc_apr_hash.
   */
  function CalcHash(d: Diary, p: Push, sha: string -> seq<byte>, aprh: string -> bv32): (r: u64)
    requires 1 <= d.maskBits <= 64
  {
    match d.dtype
    case DigestSha256 =>
      var v := Fold(sha(p.scheme + "://" + p.authority + p.path));
      ShrLe(v, 64 - d.maskBits);
      Shr(v, 64 - d.maskBits)
    case DigestAprHash =>
      var v := AprHashBits(aprh, p.scheme, p.authority, p.path);
      Bv64Range(v);
      v as int
  }

  /** x >> k. */
  function Shr(x: nat, k: nat): nat
  {
    if k == 0 then x else Shr(x / 2, k - 1)
  }

  lemma {:induction false} ShrLe(x: nat, k: nat)
    ensures Shr(x, k) <= x
    decreases k
  {
    if k > 0 {
      ShrLe(x / 2, k - 1);
    }
  }

  lemma Bv64Range(v: bv64)
    ensures 0 <= v as int < U64
  {
  }

  /**
   * With all 64 bits significant, as diary_create sets them, a SHA-256
   * diary hashes a push to the big-endian value of the last 8 digest bytes.
   */
  lemma CalcHashSha(d: Diary, p: Push, sha: string -> seq<byte>, aprh: string -> bv32)
    requires d.dtype == DigestSha256 && d.maskBits == 64
    requires |sha(p.scheme + "://" + p.authority + p.path)| >= 8
    ensures var digest := sha(p.scheme + "://" + p.authority + p.path);
            CalcHash(d, p, sha, aprh) == BigEndianFrom(0, digest[|digest| - 8..])
  {
    FoldKeepsLast8(sha(p.scheme + "://" + p.authority + p.path));
  }

  function HashesOf(d: Diary, ps: seq<Push>, sha: string -> seq<byte>, aprh: string -> bv32): (r: seq<u64>)
    requires 1 <= d.maskBits <= 64
    ensures |r| == |ps|
    ensures forall i :: 0 <= i < |ps| ==> r[i] == CalcHash(d, ps[i], sha, aprh)
  {
    if ps == [] then [] else [CalcHash(d, ps[0], sha, aprh)] + HashesOf(d, ps[1..], sha, aprh)
  }

  /**
   * h2_push_diary_update: records the pushes in the diary and returns those
   * that are new (None, for NULL, when none is); without a diary or pushes
   * it returns the pushes as given.
   */
  method Update(
    diary: Option<Diary>, pushes: Option<seq<Push>>,
    sha: string -> seq<byte>, aprh: string -> bv32)
    returns (diary': Option<Diary>, npushes: Option<seq<Push>>)
    requires diary.Some? ==> Valid(diary.value)
    ensures diary.None? || pushes.None? ==> diary' == diary && npushes == pushes
    ensures diary.Some? && pushes.Some? ==>
              var d := diary.value;
              var run := Run(d.entries, d.n, HashesOf(d, pushes.value, sha, aprh));
              && diary' == Some(d.(entries := run.0))
              && npushes == (if true in run.1 then Some(Select(pushes.value, run.1)) else None)
    ensures diary'.Some? ==> Valid(diary'.value)
  {
    if diary.None? || pushes.None? {
      return diary, pushes;
    }
    var d := diary.value;
    var es, added := UpdateLoop(d, pushes.value, HashesOf(d, pushes.value, sha, aprh));
    diary' := Some(d.(entries := es));
    npushes := if added == [] then None else Some(added);
  }

  /** The loop of h2_push_diary_update over the pushes and their hashes. */
  method UpdateLoop(d: Diary, ps: seq<Push>, hs: seq<u64>) returns (es: seq<u64>, added: seq<Push>)
    requires Valid(d) && |hs| == |ps|
    ensures var run := Run(d.entries, d.n, hs);
            && es == run.0
            && added == Select(ps, run.1)
            && Valid(d.(entries := es))
  {
    es := d.entries;
    added := [];
    var i := 0;
    while i < |ps|
      invariant 0 <= i <= |ps|
      invariant es == Run(d.entries, d.n, hs[..i]).0
      invariant added == Select(ps[..i], Run(d.entries, d.n, hs[..i]).1)
    {
      UpdateTurn(d.entries, d.n, hs, ps, i);
      es, added := Turn(d, es, added, ps[i], hs[i]);
      i := i + 1;
    }
    assert hs[..i] == hs && ps[..i] == ps;
    RunBounded(d.entries, d.n, hs);
  }

  /**
   * One turn of the loop of h2_push_diary_update: a known hash moves to the
   * end of the diary, an unknown one is appended and its push kept.
   */
  method Turn(d: Diary, es: seq<u64>, added: seq<Push>, p: Push, h: u64)
    returns (es': seq<u64>, added': seq<Push>)
    requires d.n >= 2
    ensures var idx := LastIndexOf(es, h);
            && es' == (if idx >= 0 then MoveToLast(es, idx) else AppendEntry(es, d.n, h))
            && added' == added + (if idx >= 0 then [] else [p])
  {
    var idx := Find(Some(d.(entries := es)), h);
    if idx >= 0 {
      es', added' := MoveToLast(es, idx), added;
    } else {
      es', added' := AppendEntry(es, d.n, h), added + [p];
    }
  }

  /** One turn of the update loop, in terms of the run so far. */
  lemma UpdateTurn<T>(es: seq<u64>, n: nat, hs: seq<u64>, ps: seq<T>, i: nat)
    requires n >= 2 && |hs| == |ps| && i < |hs|
    ensures var prev := Run(es, n, hs[..i]);
            var idx := LastIndexOf(prev.0, hs[i]);
            var next := Run(es, n, hs[..i + 1]);
            && next.0 == (if idx >= 0 then MoveToLast(prev.0, idx) else AppendEntry(prev.0, n, hs[i]))
            && Select(ps[..i + 1], next.1) == Select(ps[..i], prev.1) + (if idx >= 0 then [] else [ps[i]])
  {
    var prev := Run(es, n, hs[..i]);
    var step := Step(prev.0, n, hs[i]);
    assert Run(es, n, hs[..i + 1]) == (step.0, prev.1 + [step.1]) by {
      RunSnoc(es, n, hs, i);
    }
    assert ps[..i + 1] == ps[..i] + [ps[i]];
    TurnOf(prev, n, hs[i], ps[..i], ps[i]);
  }

  /** One turn on the state of the run: the entries and the kept pushes. */
  lemma TurnOf<T>(prev: (seq<u64>, seq<bool>), n: nat, h: u64, qs: seq<T>, p: T)
    requires n >= 2 && |prev.1| == |qs|
    ensures var idx := LastIndexOf(prev.0, h);
            var step := Step(prev.0, n, h);
            && step.0 == (if idx >= 0 then MoveToLast(prev.0, idx) else AppendEntry(prev.0, n, h))
            && Select(qs + [p], prev.1 + [step.1]) == Select(qs, prev.1) + (if idx >= 0 then [] else [p])
  {
    var step := Step(prev.0, n, h);
    SelectSnoc(qs, prev.1, p, step.1);
  }

  /** The run over one more hash is the run so far followed by one turn. */
  lemma RunSnoc(es: seq<u64>, n: nat, hs: seq<u64>, i: nat)
    requires n >= 2 && i < |hs|
    ensures var prev := Run(es, n, hs[..i]);
            var step := Step(prev.0, n, hs[i]);
            Run(es, n, hs[..i + 1]) == (step.0, prev.1 + [step.1])
  {
    assert hs[..i + 1][..i] == hs[..i];
    assert hs[..i + 1][i] == hs[i];
  }

  lemma SelectSnoc<T>(ps: seq<T>, flags: seq<bool>, p: T, f: bool)
    requires |flags| == |ps|
    ensures Select(ps + [p], flags + [f]) == Select(ps, flags) + (if f then [p] else [])
    decreases |ps|
  {
    if ps == [] {
      assert ps + [p] == [p];
      assert flags + [f] == [f];
    } else {
      assert (ps + [p])[1..] == ps[1..] + [p];
      assert (flags + [f])[1..] == flags[1..] + [f];
      SelectSnoc(ps[1..], flags[1..], p, f);
    }
  }
}
