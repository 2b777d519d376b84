/**
 * The HTTP/1 response parser of h2_c2_filter.c: a serialized response
 * (status line, header lines, empty line) is read line by line, folded
 * continuation lines are joined, and the header lines become a table. The
 * lines are given already split, without their CRLF; get_line and the
 * brigades are not part of this model.
 */
module ResponseParser {
  import opened Common
  import opened AprTable

  /* ---------------- apr_date_checkmask ---------------- */

  /** One mask character against one line character: '#' is a digit, others literal. */
  predicate CharMatches(d: char, m: char) {
    if m == '#' then IsDigit(d) else d == m
  }

  /**
   * apr_date_checkmask for masks of digits ('#'), literal characters and a
   * final '*' that accepts any rest; a mask that ends without '*' needs the
   * data to end with it.
   */
  function CheckMask(data: string, mask: string): bool
    decreases |mask|
  {
    if mask == [] then data == []
    else if mask[0] == '*' then true
    else if data == [] then false
    else CharMatches(data[0], mask[0]) && CheckMask(data[1..], mask[1..])
  }

  /** data starts with characters that match m one by one. */
  predicate MatchesPrefix(data: string, m: string) {
    |data| >= |m| && forall i :: 0 <= i < |m| ==> CharMatches(data[i], m[i])
  }

  /** A mask m followed by '*' accepts exactly the lines starting with a match of m. */
  lemma {:induction false} CheckMaskStar(data: string, m: string)
    requires forall i :: 0 <= i < |m| ==> m[i] != '*'
    ensures CheckMask(data, m + "*") <==> MatchesPrefix(data, m)
    decreases |m|
  {
    if m != [] {
      assert (m + "*")[0] == m[0] && (m + "*")[1..] == m[1..] + "*";
      if data != [] {
        CheckMaskStar(data[1..], m[1..]);
        if MatchesPrefix(data, m) {
          forall i | 0 <= i < |m| - 1
            ensures CharMatches(data[1..][i], m[1..][i])
          {
            assert CharMatches(data[i + 1], m[i + 1]);
          }
        }
        if CharMatches(data[0], m[0]) && MatchesPrefix(data[1..], m[1..]) {
          forall i | 0 <= i < |m|
            ensures CharMatches(data[i], m[i])
          {
            if i > 0 {
              assert data[i] == data[1..][i - 1];
            }
          }
        }
      }
    }
  }

  /* ---------------- parse_status ---------------- */

  datatype RpState = StatusLine | HeaderLine

  /** APR_SUCCESS or APR_EINVAL. */
  datatype Status = Success | EInval

  /** An h2_response_parser: its state, the status code read and the header lines. */
  datatype Parser = Parser(state: RpState, httpStatus: int, hlines: seq<string>)

  /** The status-line masks parse_status tries, without their final '*'. */
  const Http11Prefix: string := "HTTP/#.# ###"
  const Http1Prefix: string := "HTTP/# ###"

  function DigitValue(c: char): nat
    requires IsDigit(c)
  {
    (c as int) - ('0' as int)
  }

  /** atoi of the three digits at position i. */
  function ThreeDigits(line: string, i: nat): (r: nat)
    requires i + 3 <= |line| && IsDigit(line[i]) && IsDigit(line[i + 1]) && IsDigit(line[i + 2])
    ensures r < 1000
  {
    100 * DigitValue(line[i]) + 10 * DigitValue(line[i + 1]) + DigitValue(line[i + 2])
  }

  lemma NoStar11()
    ensures forall i :: 0 <= i < |Http11Prefix| ==> Http11Prefix[i] != '*'
    ensures forall i :: 0 <= i < |Http1Prefix| ==> Http1Prefix[i] != '*'
  {
  }

  /** The status code column of a line: 9 for "HTTP/x.y", 7 for "HTTP/x", 0 for neither. */
  function StatusIndex(line: string): (r: nat)
    ensures r == 9 ==> MatchesPrefix(line, Http11Prefix)
    ensures r == 7 ==> MatchesPrefix(line, Http1Prefix)
    ensures r == 0 <==> !MatchesPrefix(line, Http11Prefix) && !MatchesPrefix(line, Http1Prefix)
    ensures r == 0 || r == 7 || r == 9
  {
    NoStar11();
    CheckMaskStar(line, Http11Prefix);
    CheckMaskStar(line, Http1Prefix);
    assert Http11Prefix + "*" == "HTTP/#.# ###*" && Http1Prefix + "*" == "HTTP/# ###*";
    if CheckMask(line, "HTTP/#.# ###*") then 9
    else if CheckMask(line, "HTTP/# ###*") then 7
    else 0
  }

  lemma MaskDigits(line: string)
    ensures MatchesPrefix(line, Http11Prefix) ==>
              IsDigit(line[9]) && IsDigit(line[10]) && IsDigit(line[11])
    ensures MatchesPrefix(line, Http1Prefix) ==>
              IsDigit(line[7]) && IsDigit(line[8]) && IsDigit(line[9])
  {
    if MatchesPrefix(line, Http11Prefix) {
      assert CharMatches(line[9], Http11Prefix[9]) && CharMatches(line[10], Http11Prefix[10])
        && CharMatches(line[11], Http11Prefix[11]);
    }
    if MatchesPrefix(line, Http1Prefix) {
      assert CharMatches(line[7], Http1Prefix[7]) && CharMatches(line[8], Http1Prefix[8])
        && CharMatches(line[9], Http1Prefix[9]);
    }
  }

  /**
   * parse_status: a line starting "HTTP/d.d ddd" or "HTTP/d ddd" sets the
   * status to those three digits and moves on to the header lines; any
   * other line is APR_EINVAL and leaves the parser as it was.
   */
  function ParseStatus(p: Parser, line: string): (r: (Parser, Status))
    ensures r.1 == Success <==> MatchesPrefix(line, Http11Prefix) || MatchesPrefix(line, Http1Prefix)
    ensures r.1 == EInval ==> r.0 == p
    ensures r.1 == Success ==> r.0.state == HeaderLine && r.0.hlines == p.hlines
    ensures MatchesPrefix(line, Http11Prefix) ==> r.0.httpStatus == ThreeDigits(line, 9)
    ensures !MatchesPrefix(line, Http11Prefix) && MatchesPrefix(line, Http1Prefix) ==>
              r.0.httpStatus == ThreeDigits(line, 7)
  {
    var sindex := StatusIndex(line);
    MaskDigits(line);
    if sindex > 0 then
      (p.(state := HeaderLine, httpStatus := ThreeDigits(line, sindex)), Success)
    else (p, EInval)
  }

  /** A status line as a server writes it: version, three-digit code, reason. */
  function StatusLineText(major: nat, minor: Option<nat>, code: nat, reason: string): string
    requires major < 10 && (minor.Some? ==> minor.value < 10) && 100 <= code < 1000
  {
    "HTTP/" + [Digit(major)] + (if minor.Some? then "." + [Digit(minor.value)] else "")
    + " " + [Digit(code / 100), Digit(code / 10 % 10), Digit(code % 10)]
    + (if reason == [] then "" else " " + reason)
  }

  function Digit(d: nat): (c: char)
    requires d < 10
    ensures IsDigit(c) && DigitValue(c) == d
  {
    (('0' as int) + d) as char
  }

  /** parse_status reads back the code of any well-formed status line. */
  lemma StatusLineRoundTrip(p: Parser, major: nat, minor: Option<nat>, code: nat, reason: string)
    requires major < 10 && (minor.Some? ==> minor.value < 10) && 100 <= code < 1000
    ensures var r := ParseStatus(p, StatusLineText(major, minor, code, reason));
            r.1 == Success && r.0 == p.(state := HeaderLine, httpStatus := code)
  {
    var line := StatusLineText(major, minor, code, reason);
    if minor.Some? {
      StatusLine11Matches(major, minor.value, code, reason);
    } else {
      StatusLine1Matches(major, code, reason);
    }
  }

  lemma StatusLine11Matches(major: nat, minor: nat, code: nat, reason: string)
    requires major < 10 && minor < 10 && 100 <= code < 1000
    ensures var line := StatusLineText(major, Some(minor), code, reason);
            MatchesPrefix(line, Http11Prefix) && ThreeDigits(line, 9) == code
  {
    var line := StatusLineText(major, Some(minor), code, reason);
    forall i | 0 <= i < |Http11Prefix| ensures CharMatches(line[i], Http11Prefix[i]) {
    }
  }

  lemma StatusLine1Matches(major: nat, code: nat, reason: string)
    requires major < 10 && 100 <= code < 1000
    ensures var line := StatusLineText(major, None, code, reason);
            !MatchesPrefix(line, Http11Prefix) && MatchesPrefix(line, Http1Prefix)
            && ThreeDigits(line, 7) == code
  {
    var line := StatusLineText(major, None, code, reason);
    assert !CharMatches(line[6], Http11Prefix[6]);
    forall i | 0 <= i < |Http1Prefix| ensures CharMatches(line[i], Http1Prefix[i]) {
    }
  }

  /* ---------------- parse_header ---------------- */

  /** The line without its leading SP and HT. */
  function StripWsp(s: string): (r: string)
    ensures |r| <= |s| && r == s[|s| - |r|..]
    ensures r == [] || !IsWsp(r[0])
    ensures forall k :: 0 <= k < |s| - |r| ==> IsWsp(s[k])
  {
    if s != [] && IsWsp(s[0]) then StripWsp(s[1..]) else s
  }

  predicate IsContinuation(line: string) {
    line != [] && IsWsp(line[0])
  }

  /**
   * parse_header: a continuation line is joined to the last stored line
   * with one space; without a stored line it is APR_EINVAL (None). Any
   * other line is stored as it is.
   */
  function ParseHeader(hlines: seq<string>, line: string): (r: Option<seq<string>>)
    ensures r.None? <==> IsContinuation(line) && hlines == []
    ensures r.Some? && IsContinuation(line) ==>
              |r.value| == |hlines| && r.value[..|hlines| - 1] == hlines[..|hlines| - 1]
              && r.value[|hlines| - 1] == hlines[|hlines| - 1] + " " + StripWsp(line)
    ensures r.Some? && !IsContinuation(line) ==> r.value == hlines + [line]
  {
    if IsContinuation(line) then
      if hlines == [] then None
      else Some(hlines[..|hlines| - 1] + [hlines[|hlines| - 1] + " " + StripWsp(line)])
    else Some(hlines + [line])
  }

  /** parse_header for each line in turn, stopping at the first error. */
  function ParseHeaders(hlines: seq<string>, lines: seq<string>): (r: Option<seq<string>>)
    decreases |lines|
  {
    if lines == [] then Some(hlines)
    else match ParseHeader(hlines, lines[0])
      case None => None
      case Some(h) => ParseHeaders(h, lines[1..])
  }

  /** The number of lines that start a new header. */
  function Starts(lines: seq<string>): nat
  {
    if lines == [] then 0 else (if IsContinuation(lines[0]) then 0 else 1) + Starts(lines[1..])
  }

  /**
   * Folding fails exactly when the first line continues nothing; otherwise
   * the stored lines grow by one per line that is not a continuation, and
   * the lines stored before are kept up to the last one.
   */
  lemma {:induction false} ParseHeadersSpec(hlines: seq<string>, lines: seq<string>)
    ensures var r := ParseHeaders(hlines, lines);
            && (r.None? <==> hlines == [] && lines != [] && IsContinuation(lines[0]))
            && (r.Some? ==> |r.value| == |hlines| + Starts(lines))
            && (r.Some? && hlines != [] ==> r.value[..|hlines| - 1] == hlines[..|hlines| - 1])
    decreases |lines|
  {
    if lines != [] {
      var h := ParseHeader(hlines, lines[0]);
      if h.Some? {
        ParseHeadersSpec(h.value, lines[1..]);
        var r := ParseHeaders(hlines, lines);
        if r.Some? && hlines != [] {
          assert r.value[..|h.value| - 1][..|hlines| - 1] == r.value[..|hlines| - 1];
          assert h.value[..|hlines| - 1] == hlines[..|hlines| - 1];
        }
      }
    }
  }

  /** A header line with its folded continuations becomes one line, joined by spaces. */
  function Unfolded(first: string, conts: seq<string>): string
    decreases |conts|
  {
    if conts == [] then first else Unfolded(first + " " + StripWsp(conts[0]), conts[1..])
  }

  lemma {:induction false} ParseFolded(hlines: seq<string>, first: string, conts: seq<string>)
    requires !IsContinuation(first)
    requires forall k :: 0 <= k < |conts| ==> IsContinuation(conts[k])
    ensures ParseHeaders(hlines, [first] + conts) == Some(hlines + [Unfolded(first, conts)])
  {
    FoldInto(hlines, first, conts);
    assert ([first] + conts)[1..] == conts;
  }

  lemma {:induction false} FoldInto(hlines: seq<string>, last: string, conts: seq<string>)
    requires forall k :: 0 <= k < |conts| ==> IsContinuation(conts[k])
    ensures ParseHeaders(hlines + [last], conts) == Some(hlines + [Unfolded(last, conts)])
    decreases |conts|
  {
    if conts != [] {
      var h := hlines + [last];
      assert h[..|h| - 1] == hlines && h[|h| - 1] == last;
      FoldInto(hlines, last + " " + StripWsp(conts[0]), conts[1..]);
    }
  }

  /* ---------------- make_table ---------------- */

  /** The index of the first c in s, or |s|. */
  function IndexOf(s: string, c: char): (r: nat)
    ensures r <= |s| && (r < |s| ==> s[r] == c)
    ensures forall k :: 0 <= k < r ==> s[k] != c
  {
    if s == [] || s[0] == c then 0 else 1 + IndexOf(s[1..], c)
  }

  /**
   * make_table from the table built so far: each line is split at its first
   * ':', the value loses its leading SP/HT, and fields that
   * h2_util_ignore_header names are skipped; a line without ':' is invalid
   * and voids the whole table.
   */
  function MakeTableFrom(t: Table, lines: seq<string>, ignore: string -> bool): Option<Table>
    decreases |lines|
  {
    if lines == [] then Some(t)
    else
      var line := lines[0];
      var i := IndexOf(line, ':');
      if i == |line| then None
      else
        var name := line[..i];
        var val := StripWsp(line[i + 1..]);
        MakeTableFrom(if ignore(name) then t else Merge(t, name, val), lines[1..], ignore)
  }

  function MakeTable(hlines: seq<string>, ignore: string -> bool): Option<Table>
  {
    MakeTableFrom([], hlines, ignore)
  }

  /** IndexOf finds c exactly when c occurs. */
  lemma IndexOfFound(s: string, c: char)
    ensures IndexOf(s, c) < |s| <==> c in s
  {
    var i := IndexOf(s, c);
    if i == |s| {
      forall k | 0 <= k < |s|
        ensures s[k] != c
      {
      }
    }
  }

  /** make_table fails exactly when some line has no ':'. */
  lemma {:induction false} MakeTableInvalid(t: Table, lines: seq<string>, ignore: string -> bool)
    ensures MakeTableFrom(t, lines, ignore).None? <==> exists k :: 0 <= k < |lines| && ':' !in lines[k]
    decreases |lines|
  {
    if lines != [] {
      var line := lines[0];
      IndexOfFound(line, ':');
      var i := IndexOf(line, ':');
      if i < |line| {
        var name := line[..i];
        var t1 := if ignore(name) then t else Merge(t, name, StripWsp(line[i + 1..]));
        assert MakeTableFrom(t, lines, ignore) == MakeTableFrom(t1, lines[1..], ignore);
        MakeTableInvalid(t1, lines[1..], ignore);
        MissingColonTail(lines);
      }
    }
  }

  lemma MissingColonTail(lines: seq<string>)
    requires lines != [] && ':' in lines[0]
    ensures (exists k :: 0 <= k < |lines| && ':' !in lines[k])
            <==> (exists k :: 0 <= k < |lines[1..]| && ':' !in lines[1..][k])
  {
    if exists k :: 0 <= k < |lines| && ':' !in lines[k] {
      var k :| 0 <= k < |lines| && ':' !in lines[k];
      assert k > 0 && lines[1..][k - 1] == lines[k];
    }
    if exists k :: 0 <= k < |lines[1..]| && ':' !in lines[1..][k] {
      var k :| 0 <= k < |lines[1..]| && ':' !in lines[1..][k];
      assert lines[k + 1] == lines[1..][k];
    }
  }

  /** A header field as a server writes it. */
  datatype Field = Field(name: string, value: string)

  /** A field that survives writing and reading back. */
  predicate WellFormedField(f: Field) {
    f.name != [] && !IsWsp(f.name[0]) && ':' !in f.name && (f.value == [] || !IsWsp(f.value[0]))
  }

  function FieldLine(f: Field): string { f.name + ": " + f.value }

  function FieldLines(fs: seq<Field>): (r: seq<string>)
    ensures |r| == |fs|
  {
    if fs == [] then [] else [FieldLine(fs[0])] + FieldLines(fs[1..])
  }

  /** apr_table_merge of each field not ignored, in order. */
  function MergeFields(t: Table, fs: seq<Field>, ignore: string -> bool): Table
    decreases |fs|
  {
    if fs == [] then t
    else MergeFields(if ignore(fs[0].name) then t else Merge(t, fs[0].name, fs[0].value), fs[1..], ignore)
  }

  lemma SplitFieldLine(f: Field)
    requires WellFormedField(f)
    ensures var line := FieldLine(f); var i := IndexOf(line, ':');
            i == |f.name| && line[..i] == f.name && StripWsp(line[i + 1..]) == f.value
  {
    var line := FieldLine(f);
    var n := |f.name|;
    assert line[..n] == f.name && line[n + 1..] == " " + f.value by {
      assert line == f.name + (": " + f.value);
    }
    assert IndexOf(line, ':') == n by {
      assert line[n] == ':';
      forall j | 0 <= j < n
        ensures line[j] != ':'
      {
        assert line[j] == f.name[j];
      }
      IndexOfAt(line, ':', n);
    }
    StripOneSpace(f.value);
  }

  lemma StripOneSpace(v: string)
    requires v == [] || !IsWsp(v[0])
    ensures StripWsp(" " + v) == v
  {
    assert (" " + v)[0] == ' ' && (" " + v)[1..] == v;
    assert StripWsp(v) == v;
  }

  lemma {:induction false} IndexOfAt(s: string, c: char, k: nat)
    requires k < |s| && s[k] == c && forall j :: 0 <= j < k ==> s[j] != c
    ensures IndexOf(s, c) == k
  {
    if k > 0 {
      assert forall j :: 0 <= j < k - 1 ==> s[1..][j] == s[j + 1];
      IndexOfAt(s[1..], c, k - 1);
    }
  }

  /** make_table reads well-formed field lines back as their fields, merged in order. */
  lemma {:induction false} MakeTableOfFields(t: Table, fs: seq<Field>, ignore: string -> bool)
    requires forall k :: 0 <= k < |fs| ==> WellFormedField(fs[k])
    ensures MakeTableFrom(t, FieldLines(fs), ignore) == Some(MergeFields(t, fs, ignore))
    decreases |fs|
  {
    if fs != [] {
      SplitFieldLine(fs[0]);
      var t1 := if ignore(fs[0].name) then t else Merge(t, fs[0].name, fs[0].value);
      MakeTableOfFields(t1, fs[1..], ignore);
      assert FieldLines(fs)[1..] == FieldLines(fs[1..]);
    }
  }

  /* ---------------- parse_response and pass_response ---------------- */

  /** What pass_response hands on: the status and the table (None when make_table fails). */
  datatype Response = Response(status: int, headers: Option<Table>)

  /**
   * The result of parse_response on a run of complete lines: the parser,
   * the status returned, the lines not consumed and the response passed on.
   */
  datatype Outcome = Outcome(p: Parser, status: Status, rest: seq<string>, passed: Option<Response>)

  /**
   * parse_response: in STATUS_LINE the line goes to parse_status; in
   * HEADER_LINE an empty line ends the headers and passes the response,
   * which resets the parser; any other line goes to parse_header. It stops
   * at an error, after passing a response, or when the lines run out.
   */
  function ParseResponse(p: Parser, lines: seq<string>, ignore: string -> bool): (r: Outcome)
    ensures lines != [] ==> |r.rest| < |lines|
    ensures lines == [] ==> r == Outcome(p, Success, [], None)
    ensures r.passed.Some? ==> r.status == Success && r.p == Parser(StatusLine, r.passed.value.status, [])
    ensures r.status == Success && r.rest != [] ==> r.passed.Some?
    decreases |lines|
  {
    if lines == [] then Outcome(p, Success, [], None)
    else
      var line := lines[0];
      match p.state
      case StatusLine =>
        var (p1, st) := ParseStatus(p, line);
        if st != Success then Outcome(p1, st, lines[1..], None)
        else ParseResponse(p1, lines[1..], ignore)
      case HeaderLine =>
        if line == [] then
          Outcome(Parser(StatusLine, p.httpStatus, []), Success, lines[1..],
                  Some(Response(p.httpStatus, MakeTable(p.hlines, ignore))))
        else match ParseHeader(p.hlines, line)
          case None => Outcome(p, EInval, lines[1..], None)
          case Some(h) => ParseResponse(p.(hlines := h), lines[1..], ignore)
  }

  /** The result of the h2_c2_filter_catch_h1_out loop. */
  datatype CatchResult = CatchResult(
    p: Parser, responses: seq<Response>, hasFinal: bool, status: Status, passedOn: seq<string>)

  /**
   * The loop of h2_c2_filter_catch_h1_out: parse_response until a final
   * (status >= 200) response was passed, the lines run out or an error
   * occurs; once the final response is out, the remaining lines pass
   * through untouched.
   */
  function CatchH1Out(p: Parser, lines: seq<string>, ignore: string -> bool): (r: CatchResult)
    decreases |lines|
  {
    var o := ParseResponse(p, lines, ignore);
    var out := if o.passed.Some? then [o.passed.value] else [];
    var final := o.passed.Some? && o.passed.value.status >= 200;
    if o.rest == [] || o.status != Success then CatchResult(o.p, out, final, o.status, [])
    else if final then CatchResult(o.p, out, true, Success, o.rest)
    else
      var r := CatchH1Out(o.p, o.rest, ignore);
      r.(responses := out + r.responses)
  }

  /**
   * has_final_response is set exactly by a response of status 200 or more,
   * and that response is the last one passed: 1xx responses before it
   * keep the parser going.
   */
  lemma {:induction false} CatchH1OutFinal(p: Parser, lines: seq<string>, ignore: string -> bool)
    ensures var r := CatchH1Out(p, lines, ignore);
            && (r.hasFinal <==> r.responses != [] && FinalAtEnd(r.responses))
            && InterimBefore(r.responses)
            && (r.passedOn != [] ==> r.hasFinal)
    decreases |lines|
  {
    var o := ParseResponse(p, lines, ignore);
    var final := o.passed.Some? && o.passed.value.status >= 200;
    if o.rest != [] && o.status == Success && !final {
      var r' := CatchH1Out(o.p, o.rest, ignore);
      CatchH1OutFinal(o.p, o.rest, ignore);
      PrependInterim(o.passed.value, r'.responses);
    }
  }

  /** The last response is a final one. */
  predicate FinalAtEnd(rs: seq<Response>) {
    rs != [] && rs[|rs| - 1].status >= 200
  }

  /** Every response but the last is an interim (1xx) one. */
  predicate InterimBefore(rs: seq<Response>) {
    forall k :: 0 <= k < |rs| - 1 ==> rs[k].status < 200
  }

  lemma PrependInterim(x: Response, rs: seq<Response>)
    requires x.status < 200 && InterimBefore(rs)
    ensures InterimBefore([x] + rs)
    ensures FinalAtEnd([x] + rs) <==> FinalAtEnd(rs)
  {
    var xs := [x] + rs;
    forall k | 0 <= k < |xs| - 1
      ensures xs[k].status < 200
    {
      if k > 0 {
        assert xs[k] == rs[k - 1];
      }
    }
  }

  /* ---------------- reading back serialized responses ---------------- */

  /** A response as the HTTP/1 side writes it. */
  datatype RawResponse = RawResponse(
    major: nat, minor: Option<nat>, code: nat, reason: string, fields: seq<Field>)

  predicate WellFormedResponse(r: RawResponse) {
    r.major < 10 && (r.minor.Some? ==> r.minor.value < 10) && 100 <= r.code < 1000
    && forall k :: 0 <= k < |r.fields| ==> WellFormedField(r.fields[k])
  }

  /** Status line, field lines, empty line. */
  function Serialize(r: RawResponse): (lines: seq<string>)
    requires WellFormedResponse(r)
  {
    [StatusLineText(r.major, r.minor, r.code, r.reason)] + FieldLines(r.fields) + [""]
  }

  /** The response pass_response hands on for r. */
  function Expected(r: RawResponse, ignore: string -> bool): Response
  {
    Response(r.code, Some(MergeFields([], r.fields, ignore)))
  }

  /** In HEADER_LINE an empty line passes the response and resets the parser. */
  lemma EndOfHeaders(p: Parser, rest: seq<string>, ignore: string -> bool)
    requires p.state == HeaderLine
    ensures ParseResponse(p, [""] + rest, ignore)
            == Outcome(Parser(StatusLine, p.httpStatus, []), Success, rest,
                       Some(Response(p.httpStatus, MakeTable(p.hlines, ignore))))
  {
    assert ([""] + rest)[1..] == rest;
  }

  /** In HEADER_LINE a line that is not a continuation is stored and parsing goes on. */
  lemma HeaderLineStep(p: Parser, line: string, rest: seq<string>, ignore: string -> bool)
    requires p.state == HeaderLine && line != [] && !IsContinuation(line)
    ensures ParseResponse(p, [line] + rest, ignore)
            == ParseResponse(p.(hlines := p.hlines + [line]), rest, ignore)
  {
    assert ([line] + rest)[0] == line && ([line] + rest)[1..] == rest;
  }

  /** In STATUS_LINE a valid status line moves the parser on to the headers. */
  lemma StatusLineStep(p: Parser, line: string, rest: seq<string>, ignore: string -> bool)
    requires p.state == StatusLine && ParseStatus(p, line).1 == Success
    ensures ParseResponse(p, [line] + rest, ignore) == ParseResponse(ParseStatus(p, line).0, rest, ignore)
  {
    assert ([line] + rest)[0] == line && ([line] + rest)[1..] == rest;
  }

  lemma LinesAssoc(line: string, mid: seq<string>, rest: seq<string>)
    ensures [line] + mid + [""] + rest == [line] + (mid + [""] + rest)
  {
  }

  lemma ShiftLine(h: seq<string>, line: string, t: seq<string>)
    ensures h + ([line] + t) == (h + [line]) + t
  {
  }

  lemma {:induction false} HeaderLinesParse(p: Parser, fs: seq<Field>, rest: seq<string>, ignore: string -> bool)
    requires p.state == HeaderLine
    requires forall k :: 0 <= k < |fs| ==> WellFormedField(fs[k])
    ensures ParseResponse(p, FieldLines(fs) + [""] + rest, ignore)
            == Outcome(Parser(StatusLine, p.httpStatus, []), Success, rest,
                       Some(Response(p.httpStatus, MakeTable(p.hlines + FieldLines(fs), ignore))))
    decreases |fs|
  {
    if fs == [] {
      assert FieldLines(fs) + [""] + rest == [""] + rest;
      assert p.hlines + FieldLines(fs) == p.hlines;
      EndOfHeaders(p, rest, ignore);
    } else {
      var line := FieldLine(fs[0]);
      assert line[0] == fs[0].name[0];
      var p1 := p.(hlines := p.hlines + [line]);
      var tail := FieldLines(fs[1..]) + [""] + rest;
      assert FieldLines(fs) + [""] + rest == [line] + tail;
      HeaderLineStep(p, line, tail, ignore);
      HeaderLinesParse(p1, fs[1..], rest, ignore);
      ShiftLine(p.hlines, line, FieldLines(fs[1..]));
    }
  }

  /** parse_response reads a serialized response back and stops right after it. */
  lemma ParseResponseRoundTrip(p: Parser, r: RawResponse, rest: seq<string>, ignore: string -> bool)
    requires p.state == StatusLine && p.hlines == [] && WellFormedResponse(r)
    ensures ParseResponse(p, Serialize(r) + rest, ignore)
            == Outcome(Parser(StatusLine, r.code, []), Success, rest, Some(Expected(r, ignore)))
  {
    var sl := StatusLineText(r.major, r.minor, r.code, r.reason);
    StatusLineRoundTrip(p, r.major, r.minor, r.code, r.reason);
    var p1 := p.(state := HeaderLine, httpStatus := r.code);
    assert Serialize(r) == [sl] + FieldLines(r.fields) + [""];
    LinesAssoc(sl, FieldLines(r.fields), rest);
    StatusLineStep(p, sl, FieldLines(r.fields) + [""] + rest, ignore);
    HeaderLinesParse(p1, r.fields, rest, ignore);
    assert [] + FieldLines(r.fields) == FieldLines(r.fields);
    MakeTableOfFields([], r.fields, ignore);
  }

  function SerializeAll(rs: seq<RawResponse>): seq<string>
    requires forall k :: 0 <= k < |rs| ==> WellFormedResponse(rs[k])
  {
    if rs == [] then [] else Serialize(rs[0]) + SerializeAll(rs[1..])
  }

  function ExpectedAll(rs: seq<RawResponse>, ignore: string -> bool): (r: seq<Response>)
    ensures |r| == |rs|
  {
    if rs == [] then [] else [Expected(rs[0], ignore)] + ExpectedAll(rs[1..], ignore)
  }

  /**
   * Interim responses followed by a final one, then the body: every
   * response is passed on in order, the final one sets has_final_response,
   * and the body passes through untouched.
   */
  lemma {:induction false} CatchH1OutRoundTrip(p: Parser, rs: seq<RawResponse>, body: seq<string>, ignore: string -> bool)
    requires p.state == StatusLine && p.hlines == []
    requires rs != [] && forall k :: 0 <= k < |rs| ==> WellFormedResponse(rs[k])
    requires forall k :: 0 <= k < |rs| - 1 ==> rs[k].code < 200
    requires rs[|rs| - 1].code >= 200
    ensures CatchH1Out(p, SerializeAll(rs) + body, ignore)
            == CatchResult(Parser(StatusLine, rs[|rs| - 1].code, []), ExpectedAll(rs, ignore), true, Success, body)
    decreases |rs|
  {
    var rest := SerializeAll(rs[1..]) + body;
    assert SerializeAll(rs) + body == Serialize(rs[0]) + rest;
    ParseResponseRoundTrip(p, rs[0], rest, ignore);
    var p1 := Parser(StatusLine, rs[0].code, []);
    if |rs| > 1 {
      assert rs[1..][0] == rs[1];
      assert SerializeAll(rs[1..]) != [];
      CatchH1OutRoundTrip(p1, rs[1..], body, ignore);
      assert rs[1..][|rs[1..]| - 1] == rs[|rs| - 1];
      assert CatchH1Out(p, SerializeAll(rs) + body, ignore)
             == CatchH1Out(p1, rest, ignore).(responses := [Expected(rs[0], ignore)] + CatchH1Out(p1, rest, ignore).responses);
    } else {
      assert rest == body;
    }
  }
}
