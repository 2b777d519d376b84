/**
 * The chunked transfer coding that read_and_chunk puts around request
 * bodies (section 7.1 of RFC 9112): each run of data buckets becomes one
 * chunk "hex-size CRLF data CRLF"; a trailers bucket becomes the last
 * chunk with the trailer fields; an end-of-stream adds the last chunk
 * "0 CRLF CRLF" unless trailers already did.
 */
module Chunking {
  import opened Common
  import opened AprTable

  /**
   * The buckets read_and_chunk distinguishes: data, a trailers (headers)
   * bucket, end-of-stream, and any other metadata bucket (Flush).
   */
  datatype Bucket = Data(bytes: string) | Trailers(headers: Table) | Eos | Flush

  const Crlf: string := "\r\n"

  /** The bytes a brigade carries: its data buckets one after the other. */
  function Flatten(bs: seq<Bucket>): string
  {
    if bs == [] then [] else (if bs[0].Data? then bs[0].bytes else []) + Flatten(bs[1..])
  }

  lemma {:induction false} FlattenAppend(a: seq<Bucket>, b: seq<Bucket>)
    ensures Flatten(a + b) == Flatten(a) + Flatten(b)
  {
    if a == [] {
      assert a + b == b;
    } else {
      assert (a + b)[1..] == a[1..] + b;
      FlattenAppend(a[1..], b);
    }
  }

  /* ---------------- hexadecimal chunk sizes ---------------- */

  predicate IsHexDigit(c: char) {
    IsDigit(c) || 'a' <= c <= 'f' || 'A' <= c <= 'F'
  }

  function HexValue(c: char): (r: nat)
    requires IsHexDigit(c)
    ensures r < 16
  {
    if IsDigit(c) then (c as int) - ('0' as int)
    else if 'a' <= c <= 'f' then (c as int) - ('a' as int) + 10
    else (c as int) - ('A' as int) + 10
  }

  function HexDigit(d: nat): (c: char)
    requires d < 16
    ensures IsHexDigit(c) && HexValue(c) == d
  {
    if d < 10 then (('0' as int) + d) as char else (('a' as int) + d - 10) as char
  }

  /** The APR_UINT64_T_HEX_FMT rendering of n: lower-case hex, no leading zeros. */
  function Hex(n: nat): (r: string)
    ensures r != [] && forall k :: 0 <= k < |r| ==> IsHexDigit(r[k])
  {
    if n < 16 then [HexDigit(n)] else Hex(n / 16) + [HexDigit(n % 16)]
  }

  /** The value of a string of hex digits. */
  function ParseHex(s: string): nat
    requires forall k :: 0 <= k < |s| ==> IsHexDigit(s[k])
  {
    if s == [] then 0 else 16 * ParseHex(s[..|s| - 1]) + HexValue(s[|s| - 1])
  }

  lemma {:induction false} ParseHexOfHex(n: nat)
    ensures ParseHex(Hex(n)) == n
  {
    if n >= 16 {
      ParseHexOfHex(n / 16);
      var h := Hex(n);
      assert h[..|h| - 1] == Hex(n / 16);
    } else {
      assert Hex(n)[..0] == [];
    }
  }

  /** The end of the run of hex digits that starts at i. */
  function HexEnd(s: string, i: nat): (r: nat)
    requires i <= |s|
    ensures i <= r <= |s| && (r < |s| ==> !IsHexDigit(s[r]))
    ensures forall k :: i <= k < r ==> IsHexDigit(s[k])
    decreases |s| - i
  {
    if i < |s| && IsHexDigit(s[i]) then HexEnd(s, i + 1) else i
  }

  lemma {:induction false} HexEndOf(h: string, rest: string, i: nat)
    requires i <= |h| && forall k :: 0 <= k < |h| ==> IsHexDigit(h[k])
    requires rest == [] || !IsHexDigit(rest[0])
    ensures HexEnd(h + rest, i) == |h|
    decreases |h| - i
  {
    if i < |h| {
      HexEndOf(h, rest, i + 1);
    }
  }

  /* ---------------- what read_and_chunk writes ---------------- */

  /** make_chunk: the size line before the run and CRLF after it. */
  function MakeChunk(run: seq<Bucket>, len: nat): seq<Bucket>
  {
    [Data(Hex(len) + Crlf)] + run + [Data(Crlf)]
  }

  /** ser_header: one trailer field line. */
  function FieldLine(e: Entry): string { e.key + ": " + e.val }

  function FieldBlock(h: Table): string
  {
    if h == [] then [] else FieldLine(h[0]) + Crlf + FieldBlock(h[1..])
  }

  /** The last chunk written for a trailers bucket. */
  function TrailerText(h: Table): string
  {
    if h != [] then "0\r\n" + FieldBlock(h) + Crlf else "0\r\n\r\n"
  }

  /** The last chunk written at end-of-stream. */
  const LastChunk: string := "0\r\n\r\n"

  /** Both branches write the same form: last-chunk, the field lines, CRLF. */
  lemma TrailerTextUniform(h: Table)
    ensures TrailerText(h) == "0\r\n" + FieldBlock(h) + Crlf
    ensures TrailerText([]) == LastChunk
  {
  }

  /** A pending run of data buckets: non-empty data only. */
  predicate RunOk(run: seq<Bucket>) {
    forall k :: 0 <= k < |run| ==> run[k].Data? && run[k].bytes != []
  }

  /** The run closed before a metadata bucket or at the end, if there is one. */
  function Close(run: seq<Bucket>, len: nat): seq<Bucket>
  {
    if run == [] then [] else MakeChunk(run, len)
  }

  function Closed(run: seq<Bucket>, len: nat): nat
  {
    if run == [] then 0 else len
  }

  /**
   * The result of the bucket loop: the output brigade, eos_chunk_added
   * after it, what it added to chunked_total, and the last trailers seen
   * (what r->trailers_in is set to).
   */
  datatype Framed = Framed(out: seq<Bucket>, eosAdded: bool, chunked: nat, trailers: Option<Table>)

  /**
   * What a metadata bucket becomes in the output: a trailers bucket is
   * replaced by the last chunk with its fields; an end-of-stream gets the
   * last chunk "0 CRLF CRLF" in front unless trailers already wrote one;
   * any other metadata bucket passes as it is.
   */
  function Marker(eosAdded: bool, b: Bucket): seq<Bucket>
  {
    match b
    case Trailers(h) => [Data(TrailerText(h))]
    case Eos => (if eosAdded then [] else [Data(LastChunk)]) + [Eos]
    case _ => [b]
  }

  /** eos_chunk_added after a metadata bucket: set by trailers, cleared by end-of-stream. */
  function After(eosAdded: bool, b: Bucket): bool
  {
    if b.Trailers? then true else if b.Eos? then false else eosAdded
  }

  /**
   * The bucket loop of read_and_chunk, with the data run pending so far
   * (first_data .. and its length bblen). Empty data buckets are dropped;
   * a metadata bucket closes the pending run. The trailers are the last
   * trailers bucket's fields.
   */
  function Frame(eosAdded: bool, bs: seq<Bucket>, run: seq<Bucket>, len: nat): Framed
    decreases |bs|
  {
    if bs == [] then Framed(Close(run, len), eosAdded, Closed(run, len), None)
    else if bs[0].Data? then
      if bs[0].bytes == [] then Frame(eosAdded, bs[1..], run, len)
      else Frame(eosAdded, bs[1..], run + [bs[0]], len + |bs[0].bytes|)
    else
      var r := Frame(After(eosAdded, bs[0]), bs[1..], [], 0);
      Framed(Close(run, len) + Marker(eosAdded, bs[0]) + r.out, r.eosAdded, Closed(run, len) + r.chunked,
             if r.trailers.Some? then r.trailers else if bs[0].Trailers? then Some(bs[0].headers) else None)
  }

  /** The h2_chunk_filter_t state kept between calls. */
  datatype ChunkFilter = ChunkFilter(eosChunkAdded: bool, chunkedTotal: nat, trailersIn: Option<Table>)

  /** read_and_chunk on one brigade read from below. */
  function ReadAndChunk(f: ChunkFilter, bs: seq<Bucket>): (ChunkFilter, seq<Bucket>)
  {
    var fr := Frame(f.eosChunkAdded, bs, [], 0);
    (ChunkFilter(fr.eosAdded, f.chunkedTotal + fr.chunked,
                 if fr.trailers.Some? then fr.trailers else f.trailersIn),
     fr.out)
  }

  /** No data bucket read_and_chunk writes is empty. */
  predicate NoEmptyData(bs: seq<Bucket>) {
    forall k :: 0 <= k < |bs| && bs[k].Data? ==> bs[k].bytes != []
  }

  lemma NoEmptyDataAppend(a: seq<Bucket>, b: seq<Bucket>)
    requires NoEmptyData(a) && NoEmptyData(b)
    ensures NoEmptyData(a + b)
  {
    forall k | 0 <= k < |a + b| && (a + b)[k].Data?
      ensures (a + b)[k].bytes != []
    {
      if k >= |a| {
        assert (a + b)[k] == b[k - |a|];
      }
    }
  }

  lemma CloseNoEmptyData(run: seq<Bucket>, len: nat)
    requires RunOk(run)
    ensures NoEmptyData(Close(run, len))
  {
    if run != [] {
      var c := MakeChunk(run, len);
      forall k | 0 <= k < |c| && c[k].Data?
        ensures c[k].bytes != []
      {
        if 0 < k < |c| - 1 {
          assert c[k] == run[k - 1];
        }
      }
    }
  }

  lemma MarkerNoEmptyData(e: bool, b: Bucket)
    requires !b.Data?
    ensures NoEmptyData(Marker(e, b))
  {
    var m := Marker(e, b);
    forall k | 0 <= k < |m| && m[k].Data?
      ensures m[k].bytes != []
    {
      if b.Trailers? {
        assert m[k].bytes == TrailerText(b.headers);
        assert TrailerText(b.headers)[0] == '0';
      } else {
        assert m[k].bytes == LastChunk;
      }
    }
  }

  lemma {:induction false} FrameNoEmptyData(e: bool, bs: seq<Bucket>, run: seq<Bucket>, len: nat)
    requires RunOk(run)
    ensures NoEmptyData(Frame(e, bs, run, len).out)
    decreases |bs|
  {
    CloseNoEmptyData(run, len);
    if bs != [] {
      var b := bs[0];
      if b.Data? {
        if b.bytes == [] {
          FrameNoEmptyData(e, bs[1..], run, len);
        } else {
          FrameNoEmptyData(e, bs[1..], run + [b], len + |b.bytes|);
        }
      } else {
        var none: seq<Bucket> := [];
        var r := Frame(After(e, b), bs[1..], none, 0);
        FrameNoEmptyData(After(e, b), bs[1..], none, 0);
        MarkerNoEmptyData(e, b);
        NoEmptyDataAppend(Close(run, len), Marker(e, b));
        NoEmptyDataAppend(Close(run, len) + Marker(e, b), r.out);
      }
    }
  }

  /** read_and_chunk never writes an empty data bucket. */
  lemma ReadAndChunkNoEmptyData(f: ChunkFilter, bs: seq<Bucket>)
    ensures NoEmptyData(ReadAndChunk(f, bs).1)
  {
    FrameNoEmptyData(f.eosChunkAdded, bs, [], 0);
  }

  /* ---------------- chunked_total ---------------- */

  /** The number of data bytes in a brigade. */
  function DataLength(bs: seq<Bucket>): nat
  {
    |Flatten(bs)|
  }

  lemma {:induction false} FrameCounts(e: bool, bs: seq<Bucket>, run: seq<Bucket>, len: nat)
    requires RunOk(run) && len == |Flatten(run)|
    ensures Frame(e, bs, run, len).chunked == len + DataLength(bs)
    decreases |bs|
  {
    if bs == [] {
      if run != [] {
        assert len == Closed(run, len);
      } else {
        assert len == 0;
      }
    } else {
      var b := bs[0];
      assert Flatten(bs) == (if b.Data? then b.bytes else []) + Flatten(bs[1..]);
      if b.Data? {
        if b.bytes == [] {
          FrameCounts(e, bs[1..], run, len);
        } else {
          FlattenAppend(run, [b]);
          assert Flatten([b]) == b.bytes;
          FrameCounts(e, bs[1..], run + [b], len + |b.bytes|);
        }
      } else {
        FrameCounts(After(e, b), bs[1..], [], 0);
        if run == [] {
          assert len == 0;
        }
      }
    }
  }

  /** chunked_total grows by exactly the data bytes of the brigade. */
  lemma ChunkedTotal(f: ChunkFilter, bs: seq<Bucket>)
    ensures ReadAndChunk(f, bs).0.chunkedTotal == f.chunkedTotal + DataLength(bs)
  {
    FrameCounts(f.eosChunkAdded, bs, [], 0);
  }

  /* ---------------- a chunked decoder ---------------- */

  predicate CrlfAt(s: string, k: nat) {
    k + 2 <= |s| && s[k] == '\r' && s[k + 1] == '\n'
  }

  /** The first CRLF at or after i, or |s| when there is none. */
  function FindCrlf(s: string, i: nat): (r: nat)
    requires i <= |s|
    ensures i <= r <= |s| && (r < |s| ==> CrlfAt(s, r))
    decreases |s| - i
  {
    if i + 2 > |s| then |s| else if CrlfAt(s, i) then i else FindCrlf(s, i + 1)
  }

  /** The trailer lines after the last chunk, up to the final empty line, which must end the text. */
  function ReadTrailer(s: string): (r: Option<seq<string>>)
    decreases |s|
  {
    var i := FindCrlf(s, 0);
    if i == |s| then None
    else if i == 0 then (if |s| == 2 then Some([]) else None)
    else match ReadTrailer(s[i + 2..])
      case None => None
      case Some(ls) => Some([s[..i]] + ls)
  }

  /**
   * Decoding a chunked body: chunks until the last (size 0) chunk, then the
   * trailer lines; the payload and the trailer lines, or None when the text
   * is not exactly one chunked body.
   */
  function Dechunk(s: string): (r: Option<(string, seq<string>)>)
    decreases |s|
  {
    var k := HexEnd(s, 0);
    if k == 0 || !CrlfAt(s, k) then None
    else
      var n := ParseHex(s[..k]);
      var t := s[k + 2..];
      if n == 0 then
        match ReadTrailer(t)
        case None => None
        case Some(ls) => Some(([], ls))
      else if |t| < n + 2 || !CrlfAt(t, n) then None
      else match Dechunk(t[n + 2..])
        case None => None
        case Some(d) => Some((t[..n] + d.0, d.1))
  }

  /** Some((p + q, ls)) for Some((q, ls)). */
  function Prepend(p: string, d: Option<(string, seq<string>)>): Option<(string, seq<string>)>
  {
    if d.None? then None else Some((p + d.value.0, d.value.1))
  }

  /** One data chunk read by Dechunk: the size line, the data, CRLF. */
  lemma DechunkStep(s: string, k: nat, n: nat)
    requires 0 < k <= |s| && HexEnd(s, 0) == k && CrlfAt(s, k)
    requires ParseHex(s[..k]) == n > 0
    requires k + n + 4 <= |s| && CrlfAt(s[k + 2..], n)
    ensures Dechunk(s) == Prepend(s[k + 2..][..n], Dechunk(s[k + 2..][n + 2..]))
  {
  }

  /** The parts of a chunk "size CRLF data CRLF" followed by more text. */
  lemma ChunkParts<T>(h: seq<T>, c1: seq<T>, d: seq<T>, c2: seq<T>, r: seq<T>)
    requires |c1| == 2 && |c2| == 2
    ensures var s := h + c1 + d + c2 + r;
            var k := |h|;
            && s == h + (c1 + d + c2 + r)
            && s[..k] == h && s[k] == c1[0] && s[k + 1] == c1[1]
            && s[k + 2..][..|d|] == d && s[k + 2..][|d|] == c2[0] && s[k + 2..][|d| + 1] == c2[1]
            && s[k + 2..][|d| + 2..] == r
  {
    var s := h + c1 + d + c2 + r;
    var k := |h|;
    assert s[k + 2..] == d + c2 + r;
    assert (d + c2 + r)[|d| + 2..] == r;
  }

  /** A chunk with its size line decodes to its data, then the rest. */
  lemma DechunkChunk(data: string, rest: string)
    requires data != []
    ensures Dechunk(Hex(|data|) + Crlf + data + Crlf + rest) == Prepend(data, Dechunk(rest))
  {
    var h := Hex(|data|);
    var k := |h|;
    var n := |data|;
    var s := h + Crlf + data + Crlf + rest;
    ChunkParts(h, Crlf, data, Crlf, rest);
    HexEndOf(h, Crlf + data + Crlf + rest, 0);
    ParseHexOfHex(n);
    DechunkStep(s, k, n);
  }

  /** The trailer block: each line, CRLF, then the empty line. */
  function LinesText(ls: seq<string>): string
  {
    if ls == [] then Crlf else ls[0] + Crlf + LinesText(ls[1..])
  }

  predicate NoCr(s: string) { forall k :: 0 <= k < |s| ==> s[k] != '\r' }

  lemma FindCrlfOf(line: string, rest: string)
    requires NoCr(line)
    ensures FindCrlf(line + Crlf + rest, 0) == |line|
  {
    var s := line + Crlf + rest;
    FindCrlfFrom(s, 0, |line|);
  }

  lemma {:induction false} FindCrlfFrom(s: string, i: nat, k: nat)
    requires i <= k && CrlfAt(s, k) && forall j :: i <= j < k ==> s[j] != '\r'
    ensures FindCrlf(s, i) == k
    decreases k - i
  {
    if i < k {
      FindCrlfFrom(s, i + 1, k);
    }
  }

  /** ReadTrailer consuming one non-empty line. */
  lemma ReadTrailerStep(line: string, rest: string)
    requires line != [] && NoCr(line)
    ensures ReadTrailer(line + Crlf + rest)
            == (if ReadTrailer(rest).Some? then Some([line] + ReadTrailer(rest).value) else None)
  {
    var s := line + Crlf + rest;
    FindCrlfOf(line, rest);
    assert s[..|line|] == line;
    assert s[|line| + 2..] == rest;
  }

  lemma {:induction false} ReadTrailerOf(ls: seq<string>)
    requires forall k :: 0 <= k < |ls| ==> ls[k] != [] && NoCr(ls[k])
    ensures ReadTrailer(LinesText(ls)) == Some(ls)
    decreases |ls|
  {
    if ls == [] {
      assert FindCrlf(Crlf, 0) == 0;
    } else {
      var rest := LinesText(ls[1..]);
      assert ReadTrailer(rest) == Some(ls[1..]) by {
        assert forall k :: 0 <= k < |ls[1..]| ==> ls[1..][k] == ls[k + 1];
        ReadTrailerOf(ls[1..]);
      }
      assert LinesText(ls) == ls[0] + Crlf + rest;
      ReadTrailerStep(ls[0], rest);
      assert [ls[0]] + ls[1..] == ls;
    }
  }

  /** The last chunk followed by the trailer lines decodes to no data and those lines. */
  lemma DechunkLast(ls: seq<string>)
    requires forall k :: 0 <= k < |ls| ==> ls[k] != [] && NoCr(ls[k])
    ensures Dechunk("0\r\n" + LinesText(ls)) == Some(([], ls))
  {
    var t := LinesText(ls);
    var s := "0\r\n" + t;
    assert s[0] == '0' && s[1] == '\r' && s[2] == '\n' && s[3..] == t;
    assert HexEnd(s, 0) == 1 by {
      assert IsHexDigit(s[0]) && !IsHexDigit(s[1]);
    }
    assert ParseHex(s[..1]) == 0 by {
      var x := s[..1];
      assert |x| == 1 && x[0] == '0' && |x[..0]| == 0;
    }
    assert ReadTrailer(t) == Some(ls) by {
      ReadTrailerOf(ls);
    }
    DechunkZero(s, 1);
  }

  /** The last chunk read by Dechunk: the size line "0", then the trailer. */
  lemma DechunkZero(s: string, k: nat)
    requires 0 < k <= |s| && HexEnd(s, 0) == k && CrlfAt(s, k) && ParseHex(s[..k]) == 0
    ensures Dechunk(s) == (if ReadTrailer(s[k + 2..]).Some? then Some(([], ReadTrailer(s[k + 2..]).value)) else None)
  {
  }

  /* ---------------- the round trip ---------------- */

  /** The trailer lines ser_header writes. */
  function FieldLines(h: Table): (r: seq<string>)
    ensures |r| == |h|
  {
    if h == [] then [] else [FieldLine(h[0])] + FieldLines(h[1..])
  }

  lemma {:induction false} FieldBlockText(h: Table)
    ensures FieldBlock(h) + Crlf == LinesText(FieldLines(h))
  {
    if h != [] {
      FieldBlockText(h[1..]);
    }
  }

  /** Trailer fields that survive being written as lines. */
  predicate PlainFields(h: Table) {
    forall k :: 0 <= k < |h| ==> NoCr(h[k].key) && NoCr(h[k].val)
  }

  lemma {:induction false} FieldLinesPlain(h: Table)
    requires PlainFields(h)
    ensures forall k :: 0 <= k < |FieldLines(h)| ==> FieldLines(h)[k] != [] && NoCr(FieldLines(h)[k])
  {
    if h != [] {
      FieldLinesPlain(h[1..]);
      var l := FieldLine(h[0]);
      assert l[|h[0].key|] == ':';
      forall k | 0 <= k < |l|
        ensures l[k] != '\r'
      {
        if k < |h[0].key| {
          assert l[k] == h[0].key[k];
        } else if k >= |h[0].key| + 2 {
          assert l[k] == h[0].val[k - |h[0].key| - 2];
        }
      }
      forall k | 0 <= k < |FieldLines(h)|
        ensures FieldLines(h)[k] != [] && NoCr(FieldLines(h)[k])
      {
        if k > 0 {
          assert FieldLines(h)[k] == FieldLines(h[1..])[k - 1];
        }
      }
    }
  }

  lemma TrailerTextDecodes(h: Table)
    requires PlainFields(h)
    ensures Dechunk(TrailerText(h)) == Some(([], FieldLines(h)))
  {
    TrailerTextUniform(h);
    FieldBlockText(h);
    assert TrailerText(h) == "0\r\n" + LinesText(FieldLines(h));
    FieldLinesPlain(h);
    DechunkLast(FieldLines(h));
  }

  /** A body brigade: data and plain metadata buckets only. */
  predicate BodyOnly(bs: seq<Bucket>) {
    forall k :: 0 <= k < |bs| ==> bs[k].Data? || bs[k].Flush?
  }

  lemma PrependEmpty(d: Option<(string, seq<string>)>)
    ensures Prepend([], d) == d
  {
    if d.Some? {
      assert [] + d.value.0 == d.value.0;
    }
  }

  lemma PrependPrepend(p: string, q: string, d: Option<(string, seq<string>)>)
    ensures Prepend(p, Prepend(q, d)) == Prepend(p + q, d)
  {
    if d.Some? {
      assert p + (q + d.value.0) == p + q + d.value.0;
    }
  }

  lemma FlattenOne(b: Bucket)
    ensures Flatten([b]) == (if b.Data? then b.bytes else [])
  {
    assert [b][1..] == [];
  }

  lemma FlattenChunk(run: seq<Bucket>, len: nat)
    ensures Flatten(MakeChunk(run, len)) == Hex(len) + Crlf + Flatten(run) + Crlf
  {
    FlattenAppend([Data(Hex(len) + Crlf)] + run, [Data(Crlf)]);
    FlattenAppend([Data(Hex(len) + Crlf)], run);
    assert Flatten([Data(Crlf)]) == Crlf;
    assert Flatten([Data(Hex(len) + Crlf)]) == Hex(len) + Crlf;
  }

  lemma FlattenRun(run: seq<Bucket>)
    requires RunOk(run) && run != []
    ensures Flatten(run) != []
  {
    assert run[0].bytes != [];
  }

  /** Frame skipping an empty data bucket. */
  lemma FrameSkip(e: bool, bs: seq<Bucket>, run: seq<Bucket>, len: nat)
    requires bs != [] && bs[0] == Data([])
    ensures Frame(e, bs, run, len) == Frame(e, bs[1..], run, len)
  {
  }

  /** Frame adding a non-empty data bucket to the pending run. */
  lemma FrameExtend(e: bool, bs: seq<Bucket>, run: seq<Bucket>, len: nat)
    requires RunOk(run) && bs != [] && bs[0].Data? && bs[0].bytes != []
    ensures RunOk(run + [bs[0]])
    ensures Frame(e, bs, run, len) == Frame(e, bs[1..], run + [bs[0]], len + |bs[0].bytes|)
  {
  }

  /** Frame at a metadata bucket: the pending run closes, then the bucket's own output. */
  lemma FrameMeta(e: bool, bs: seq<Bucket>, run: seq<Bucket>, len: nat)
    requires bs != [] && !bs[0].Data?
    ensures Frame(e, bs, run, len).out == Close(run, len) + Marker(e, bs[0]) + Frame(After(e, bs[0]), bs[1..], [], 0).out
  {
  }


  /* ---------------- the body as a list of chunks ---------------- */

  /** The chunks of a list of payloads, each "hex-size CRLF data CRLF". */
  function Chunks(ps: seq<string>): string
  {
    if ps == [] then [] else Hex(|ps[0]|) + Crlf + ps[0] + Crlf + Chunks(ps[1..])
  }

  lemma {:induction false} ChunksAppend(a: seq<string>, b: seq<string>)
    ensures Chunks(a + b) == Chunks(a) + Chunks(b)
  {
    if a == [] {
      assert a + b == b;
    } else {
      assert (a + b)[1..] == a[1..] + b;
      ChunksAppend(a[1..], b);
    }
  }

  /** A chunked text with non-empty payloads decodes to their concatenation, then the rest. */
  lemma {:induction false} DechunkChunks(ps: seq<string>, rest: string)
    requires forall k :: 0 <= k < |ps| ==> ps[k] != []
    ensures Dechunk(Chunks(ps) + rest) == Prepend(Concat(ps), Dechunk(rest))
  {
    if ps == [] {
      assert Chunks(ps) + rest == rest;
      PrependEmpty(Dechunk(rest));
    } else {
      var tail := Chunks(ps[1..]) + rest;
      assert Chunks(ps) + rest == Hex(|ps[0]|) + Crlf + ps[0] + Crlf + tail;
      DechunkChunk(ps[0], tail);
      DechunkChunks(ps[1..], rest);
      PrependPrepend(ps[0], Concat(ps[1..]), Dechunk(rest));
    }
  }

  /** The payload of the pending run, as a chunk list of zero or one. */
  function RunPiece(run: seq<Bucket>): seq<string>
  {
    if run == [] then [] else [Flatten(run)]
  }

  /**
   * The payloads of the chunks read_and_chunk writes for a body brigade,
   * starting with the pending run: data gathers into the run, a flush
   * closes it.
   */
  function Pieces(run: seq<Bucket>, body: seq<Bucket>): seq<string>
    decreases |body|
  {
    if body == [] then RunPiece(run)
    else if body[0].Data? then
      (if body[0].bytes == [] then Pieces(run, body[1..]) else Pieces(run + [body[0]], body[1..]))
    else RunPiece(run) + Pieces([], body[1..])
  }

  lemma CloseIsChunks(run: seq<Bucket>, len: nat)
    requires RunOk(run) && len == |Flatten(run)|
    ensures Flatten(Close(run, len)) == Chunks(RunPiece(run))
  {
    if run != [] {
      FlattenChunk(run, len);
      assert Chunks(RunPiece(run)) == Hex(len) + Crlf + Flatten(run) + Crlf + Chunks([]);
    }
  }

  /** The pieces carry exactly the run's and the body's bytes, and none is empty. */
  lemma PiecesContent(run: seq<Bucket>, body: seq<Bucket>)
    requires RunOk(run)
    ensures Concat(Pieces(run, body)) == Flatten(run) + Flatten(body)
    ensures forall k :: 0 <= k < |Pieces(run, body)| ==> Pieces(run, body)[k] != []
  {
    PiecesConcat(run, body);
    PiecesNonEmpty(run, body);
  }

  /** The chunk payloads hold the run's bytes and then the body's, in order. */
  lemma {:induction false} PiecesConcat(run: seq<Bucket>, body: seq<Bucket>)
    ensures Concat(Pieces(run, body)) == Flatten(run) + Flatten(body)
    decreases |body|
  {
    var none: seq<Bucket> := [];
    assert Concat(RunPiece(run)) == Flatten(run) by {
      if run != [] {
        assert Concat([Flatten(run)]) == Flatten(run) + Concat([]);
      }
    }
    if body == [] {
      assert Flatten(run) + Flatten(body) == Flatten(run);
    } else {
      var b, t := body[0], body[1..];
      assert Flatten(body) == (if b.Data? then b.bytes else []) + Flatten(t);
      if b.Data? && b.bytes == [] {
        PiecesConcat(run, t);
      } else if b.Data? {
        PiecesConcat(run + [b], t);
        assert Flatten(run + [b]) == Flatten(run) + b.bytes by {
          FlattenAppend(run, [b]);
          FlattenOne(b);
        }
        assert (Flatten(run) + b.bytes) + Flatten(t) == Flatten(run) + (b.bytes + Flatten(t));
      } else {
        PiecesConcat(none, t);
        ConcatAppend(RunPiece(run), Pieces(none, t));
        assert Flatten(none) == [];
      }
    }
  }

  /** No chunk payload is empty: runs only start with non-empty data. */
  lemma {:induction false} PiecesNonEmpty(run: seq<Bucket>, body: seq<Bucket>)
    requires RunOk(run)
    ensures forall k :: 0 <= k < |Pieces(run, body)| ==> Pieces(run, body)[k] != []
    decreases |body|
  {
    var none: seq<Bucket> := [];
    assert forall k :: 0 <= k < |RunPiece(run)| ==> RunPiece(run)[k] != [] by {
      if run != [] {
        FlattenRun(run);
      }
    }
    if body != [] {
      var b, t := body[0], body[1..];
      if b.Data? && b.bytes == [] {
        PiecesNonEmpty(run, t);
      } else if b.Data? {
        assert RunOk(run + [b]) by {
          assert forall k :: 0 <= k < |run| ==> (run + [b])[k] == run[k];
        }
        PiecesNonEmpty(run + [b], t);
      } else {
        PiecesNonEmpty(none, t);
        NonEmptyAppend(RunPiece(run), Pieces(none, t));
      }
    }
  }

  lemma NonEmptyAppend(a: seq<string>, b: seq<string>)
    requires forall k :: 0 <= k < |a| ==> a[k] != []
    requires forall k :: 0 <= k < |b| ==> b[k] != []
    ensures forall k :: 0 <= k < |a + b| ==> (a + b)[k] != []
  {
    forall k | 0 <= k < |a + b|
      ensures (a + b)[k] != []
    {
      if k >= |a| {
        assert (a + b)[k] == b[k - |a|];
      }
    }
  }


  /**
   * The body in front of a metadata bucket is written as the chunks of
   * its pieces, followed by whatever the metadata bucket starts.
   */
  lemma {:induction false} FrameBody(e: bool, body: seq<Bucket>, tail: seq<Bucket>, run: seq<Bucket>, len: nat)
    requires RunOk(run) && len == |Flatten(run)| && BodyOnly(body)
    requires tail != [] && !tail[0].Data?
    ensures Flatten(Frame(e, body + tail, run, len).out)
            == Chunks(Pieces(run, body)) + Flatten(Frame(e, tail, [], 0).out)
    decreases |body|
  {
    var rest := Frame(e, tail, [], 0).out;
    if body == [] {
      assert body + tail == tail;
      CloseThenTail(e, tail, run, len);
      FlattenAppend(Close(run, len), rest);
      CloseIsChunks(run, len);
    } else {
      var b := body[0];
      var bs := body + tail;
      assert bs[0] == b && bs[1..] == body[1..] + tail;
      assert forall k :: 0 <= k < |body[1..]| ==> body[1..][k] == body[k + 1];
      if b.Data? && b.bytes == [] {
        FrameSkip(e, bs, run, len);
        FrameBody(e, body[1..], tail, run, len);
        assert Pieces(run, body) == Pieces(run, body[1..]);
      } else if b.Data? {
        FrameExtend(e, bs, run, len);
        FlattenAppend(run, [b]);
        FlattenOne(b);
        FrameBody(e, body[1..], tail, run + [b], len + |b.bytes|);
        assert Pieces(run, body) == Pieces(run + [b], body[1..]);
      } else {
        var none: seq<Bucket> := [];
        FrameBody(e, body[1..], tail, none, 0);
        FrameBodyFlush(e, body, tail, run, len);
      }
    }
  }

  /** The flush step of FrameBody, given the claim for the rest of the body. */
  lemma FrameBodyFlush(e: bool, body: seq<Bucket>, tail: seq<Bucket>, run: seq<Bucket>, len: nat)
    requires RunOk(run) && len == |Flatten(run)| && body != [] && body[0] == Flush
    requires Flatten(Frame(e, body[1..] + tail, [], 0).out)
             == Chunks(Pieces([], body[1..])) + Flatten(Frame(e, tail, [], 0).out)
    ensures Flatten(Frame(e, body + tail, run, len).out)
            == Chunks(Pieces(run, body)) + Flatten(Frame(e, tail, [], 0).out)
  {
    var bs := body + tail;
    ConsAppend(body, tail);
    var none: seq<Bucket> := [];
    var r := Frame(e, bs[1..], none, 0);
    var c := Close(run, len);
    assert Flatten(Frame(e, bs, run, len).out) == Flatten(c) + Flatten(r.out) by {
      FrameMeta(e, bs, run, len);
      assert Marker(e, Flush) == [Flush] && After(e, Flush) == e;
      FlattenAround(c, Flush, r.out);
    }
    assert Flatten(c) == Chunks(RunPiece(run)) by {
      CloseIsChunks(run, len);
    }
    assert Chunks(Pieces(run, body)) == Chunks(RunPiece(run)) + Chunks(Pieces(none, body[1..])) by {
      assert Pieces(run, body) == RunPiece(run) + Pieces(none, body[1..]);
      ChunksAppend(RunPiece(run), Pieces(none, body[1..]));
    }
    Regroup(Flatten(Frame(e, bs, run, len).out), Flatten(c), Flatten(r.out),
            Chunks(Pieces(none, body[1..])), Flatten(Frame(e, tail, none, 0).out), Chunks(Pieces(run, body)));
  }

  lemma ConsAppend<T>(a: seq<T>, b: seq<T>)
    requires a != []
    ensures (a + b)[0] == a[0] && (a + b)[1..] == a[1..] + b
  {
  }

  /** A bucket without data between two lists adds nothing to the bytes. */
  lemma FlattenAround(a: seq<Bucket>, m: Bucket, b: seq<Bucket>)
    requires !m.Data?
    ensures Flatten(a + [m] + b) == Flatten(a) + Flatten(b)
  {
    FlattenAppend(a + [m], b);
    FlattenAppend(a, [m]);
    FlattenOne(m);
    assert Flatten(a) + [] == Flatten(a);
  }

  lemma Regroup<T>(x: seq<T>, a: seq<T>, y: seq<T>, b: seq<T>, t: seq<T>, z: seq<T>)
    requires x == a + y && y == b + t && z == a + b
    ensures x == z + t
  {
  }

  /** Before a metadata bucket the pending run is closed on its own. */
  lemma CloseThenTail(e: bool, tail: seq<Bucket>, run: seq<Bucket>, len: nat)
    requires RunOk(run) && tail != [] && !tail[0].Data?
    ensures Frame(e, tail, run, len).out == Close(run, len) + Frame(e, tail, [], 0).out
  {
    var none: seq<Bucket> := [];
    var m := Marker(e, tail[0]);
    var r := Frame(After(e, tail[0]), tail[1..], none, 0).out;
    FrameMeta(e, tail, run, len);
    FrameMeta(e, tail, none, 0);
    assert Close(none, 0) == [];
    JoinAfter(Close(run, len), m, r);
  }

  lemma JoinAfter<T>(c: seq<T>, m: seq<T>, r: seq<T>)
    ensures c + m + r == c + ([] + m + r)
  {
  }


  lemma DechunkEos(h: Option<Table>)
    requires h.Some? ==> PlainFields(h.value)
    ensures var tail := if h.Some? then [Trailers(h.value), Eos] else [Eos];
            Dechunk(Flatten(Frame(false, tail, [], 0).out))
            == Some(([], if h.Some? then FieldLines(h.value) else []))
  {
    if h.Some? {
      DechunkTrailersEos(h.value);
    } else {
      DechunkOnlyEos();
    }
  }

  /** A lone end of stream is framed as the last chunk with no trailer. */
  lemma DechunkOnlyEos()
    ensures Dechunk(Flatten(Frame(false, [Eos], [], 0).out)) == Some(([], []))
  {
    var none: seq<Bucket> := [];
    var out := Frame(false, [Eos], none, 0).out;
    assert out == [Data(LastChunk)] + [Eos] by {
      assert Frame(true, none, none, 0).out == [];
      FrameMeta(false, [Eos], none, 0);
      assert [Eos][1..] == none;
    }
    assert Flatten(out) == LastChunk by {
      FlattenAppend([Data(LastChunk)], [Eos]);
      FlattenOne(Data(LastChunk));
      FlattenOne(Eos);
    }
    TrailerTextDecodes([]);
  }

  /** Trailers before the end of stream are framed as the last chunk carrying them. */
  lemma DechunkTrailersEos(h: Table)
    requires PlainFields(h)
    ensures Dechunk(Flatten(Frame(false, [Trailers(h), Eos], [], 0).out)) == Some(([], FieldLines(h)))
  {
    var none: seq<Bucket> := [];
    var tail := [Trailers(h), Eos];
    var out := Frame(false, tail, none, 0).out;
    assert out == [Data(TrailerText(h))] + [Eos] by {
      assert Frame(true, none, none, 0).out == [];
      FrameMeta(true, [Eos], none, 0);
      assert [Eos][1..] == none;
      assert Frame(true, [Eos], none, 0).out == [Eos];
      FrameMeta(false, tail, none, 0);
      assert tail[1..] == [Eos];
    }
    assert Flatten(out) == TrailerText(h) by {
      FlattenAppend([Data(TrailerText(h))], [Eos]);
      FlattenOne(Data(TrailerText(h)));
      FlattenOne(Eos);
    }
    TrailerTextDecodes(h);
  }



  /**
   * A request body read in one go, with or without trailers, and then the
   * end of the stream: the output decodes to exactly the body's bytes and
   * the trailer lines, with one last chunk and nothing after it.
   */
  lemma ChunkRoundTrip(body: seq<Bucket>, h: Option<Table>)
    requires BodyOnly(body) && (h.Some? ==> PlainFields(h.value))
    ensures var tail := if h.Some? then [Trailers(h.value), Eos] else [Eos];
            Dechunk(Flatten(ReadAndChunk(ChunkFilter(false, 0, None), body + tail).1))
            == Some((Flatten(body), if h.Some? then FieldLines(h.value) else []))
  {
    var tail := if h.Some? then [Trailers(h.value), Eos] else [Eos];
    var lines := if h.Some? then FieldLines(h.value) else [];
    var out := ReadAndChunk(ChunkFilter(false, 0, None), body + tail).1;
    assert out == Frame(false, body + tail, [], 0).out;
    var none: seq<Bucket> := [];
    var rest := Flatten(Frame(false, tail, none, 0).out);
    FrameBody(false, body, tail, none, 0);
    PiecesContent(none, body);
    assert Flatten(none) + Flatten(body) == Flatten(body);
    DechunkChunks(Pieces(none, body), rest);
    DechunkEos(h);
    assert Dechunk(Flatten(out)) == Prepend(Flatten(body), Some(([], lines)));
    assert Flatten(body) + [] == Flatten(body);
  }

  /** After an end-of-stream the filter expects a fresh last chunk again. */
  lemma EosResets(e: bool, bs: seq<Bucket>)
    requires bs != [] && bs[|bs| - 1] == Eos
    ensures Frame(e, bs, [], 0).eosAdded == false
  {
    EosResetsFrom(e, bs, [], 0);
  }

  lemma {:induction false} EosResetsFrom(e: bool, bs: seq<Bucket>, run: seq<Bucket>, len: nat)
    requires bs != [] && bs[|bs| - 1] == Eos
    ensures Frame(e, bs, run, len).eosAdded == false
    decreases |bs|
  {
    var b := bs[0];
    if |bs| > 1 {
      assert bs[1..][|bs[1..]| - 1] == Eos;
      if b.Data? {
        if b.bytes == [] {
          EosResetsFrom(e, bs[1..], run, len);
        } else {
          EosResetsFrom(e, bs[1..], run + [b], len + |b.bytes|);
        }
      } else {
        EosResetsFrom(After(e, b), bs[1..], [], 0);
      }
    }
  }
}
