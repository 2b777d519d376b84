/**
 * The best-effort Link header scanner of modules/http2/h2_push.c.
 *
 * The C scanner keeps a cursor `i` into the header value `s` inside a
 * mutable context and reads it with small readers (skip_ws, read_chr,
 * read_link, read_param, ...). Here every reader is a pure function of the
 * text and a cursor that returns whether it succeeded, the cursor after it
 * and what it read. Failing readers still move the cursor exactly as the C
 * code does (skip_ws runs before every test), because later readers start
 * from wherever the failed one stopped.
 *
 * The grammar is that of section 5 of RFC 5988 with parmname/attr-char from
 * section 3.2.1 of RFC 5987; no escaping is honoured inside "<...>" or
 * quoted strings.
 *
 * The readers' own contracts only bound the cursor; what they read is
 * characterised by the lemmas next to them.
 */
module LinkScanner {
  import opened Common
  import opened AprTable

  /**
   * attr-char of RFC 5987: ALPHA / DIGIT / "!#$&+-.^_`|~", written with
   * the ASCII ranges the punctuation falls into.
   */
  predicate AttrChar(c: char) {
    || IsAlnum(c) || c == '!' || ('#' <= c <= '&' && c != '%') || c == '+'
    || ('-' <= c <= '.') || ('^' <= c <= '`') || c == '|' || c == '~'
  }

  /**
   * ptokenchar of RFC 5988 as the scanner accepts it (no "%"): ALPHA /
   * DIGIT / "!#$&'()*+-./:<=>?@[]^_`{|}~", again by ASCII ranges.
   */
  predicate PtokenChar(c: char) {
    || IsAlnum(c) || c == '!' || ('#' <= c <= '/' && c != '%' && c != ',')
    || (':' <= c <= '@' && c != ';') || c == '[' || (']' <= c <= '`') || ('{' <= c <= '~')
  }

  /** Every character of t is an attr-char (a parmname when t is non-empty). */
  predicate AllAttr(t: string) {
    forall k :: 0 <= k < |t| ==> AttrChar(t[k])
  }

  /** Every character of t is a ptoken char. */
  predicate AllPtoken(t: string) {
    forall k :: 0 <= k < |t| ==> PtokenChar(t[k])
  }

  /** One link-value: the URI reference between "<" and ">" and its parameters. */
  datatype LinkValue = LinkValue(link: string, params: Table)

  /** Outcome of a reader: success flag, cursor afterwards, text read. */
  datatype Step = Step(ok: bool, pos: nat, text: string)

  /**
   * The characters s[a..b], built one at a time (apr_pstrndup of the
   * range). Kept recursive so that proofs about the readers only look
   * inside the text they read when they need to.
   */
  function Substr(s: string, a: nat, b: nat): (r: string)
    requires a <= b <= |s|
    ensures |r| == b - a
    decreases b - a
  {
    if a == b then [] else [s[a]] + Substr(s, a + 1, b)
  }

  lemma {:induction false} SubstrIsSlice(s: string, a: nat, b: nat)
    requires a <= b <= |s|
    ensures Substr(s, a, b) == s[a..b]
    decreases b - a
  {
    if a < b {
      SubstrIsSlice(s, a + 1, b);
      assert s[a..b] == [s[a]] + s[a + 1..b];
    }
  }

  /** skip_ws: advance over SP/HT. The C function's result is `pos < |s|`. */
  function SkipWs(s: string, i: nat): (j: nat)
    requires i <= |s|
    ensures i <= j <= |s|
    ensures j < |s| ==> !IsWsp(s[j])
    decreases |s| - i
  {
    if i < |s| && IsWsp(s[i]) then SkipWs(s, i + 1) else i
  }

  /** skip_ws passes over nothing but SP and HT. */
  lemma {:induction false} SkipWsSkipsWsp(s: string, i: nat)
    requires i <= |s|
    ensures forall k :: i <= k < SkipWs(s, i) ==> IsWsp(s[k])
    decreases |s| - i
  {
    if i < |s| && IsWsp(s[i]) {
      SkipWsSkipsWsp(s, i + 1);
    }
  }

  /** find_chr: the first index at or after i holding c. */
  function FindChr(s: string, i: nat, c: char): (r: Option<nat>)
    requires i <= |s|
    ensures r.Some? ==> i <= r.value < |s| && s[r.value] == c
    decreases |s| - i
  {
    if i == |s| then None
    else if s[i] == c then Some(i)
    else FindChr(s, i + 1, c)
  }

  /** find_chr finds the first occurrence, and fails only when there is none. */
  lemma {:induction false} FindChrFirst(s: string, i: nat, c: char)
    requires i <= |s|
    ensures FindChr(s, i, c).Some? ==> forall k :: i <= k < FindChr(s, i, c).value ==> s[k] != c
    ensures FindChr(s, i, c).None? ==> forall k :: i <= k < |s| ==> s[k] != c
    decreases |s| - i
  {
    if i < |s| && s[i] != c {
      FindChrFirst(s, i + 1, c);
    }
  }

  /** The text between i and the first c after it does not contain c. */
  lemma FindChrGap(s: string, i: nat, c: char)
    requires i <= |s| && FindChr(s, i, c).Some?
    ensures c !in Substr(s, i, FindChr(s, i, c).value)
  {
    var e := FindChr(s, i, c).value;
    FindChrFirst(s, i, c);
    SubstrIsSlice(s, i, e);
  }

  /** The end of the longest run of attr-chars starting at i. */
  function AttrRun(s: string, i: nat): (j: nat)
    requires i <= |s|
    ensures i <= j <= |s|
    decreases |s| - i
  {
    if i < |s| && AttrChar(s[i]) then AttrRun(s, i + 1) else i
  }

  /** AttrRun stops exactly at the first character that is not an attr-char. */
  lemma {:induction false} AttrRunMaximal(s: string, i: nat)
    requires i <= |s|
    ensures AllAttr(Substr(s, i, AttrRun(s, i)))
    ensures AttrRun(s, i) < |s| ==> !AttrChar(s[AttrRun(s, i)])
    decreases |s| - i
  {
    if i < |s| && AttrChar(s[i]) {
      AttrRunMaximal(s, i + 1);
    }
  }

  /** The end of the longest run of ptoken chars starting at i. */
  function PtokenRun(s: string, i: nat): (j: nat)
    requires i <= |s|
    ensures i <= j <= |s|
    decreases |s| - i
  {
    if i < |s| && PtokenChar(s[i]) then PtokenRun(s, i + 1) else i
  }

  /** PtokenRun stops exactly at the first character that is not a ptoken char. */
  lemma {:induction false} PtokenRunMaximal(s: string, i: nat)
    requires i <= |s|
    ensures AllPtoken(Substr(s, i, PtokenRun(s, i)))
    ensures PtokenRun(s, i) < |s| ==> !PtokenChar(s[PtokenRun(s, i)])
    decreases |s| - i
  {
    if i < |s| && PtokenChar(s[i]) {
      PtokenRunMaximal(s, i + 1);
    }
  }

  /**
   * `skip_ws(ctx) && read_chr(ctx, c)`: after the whitespace, is the next
   * character c? On success the cursor is just past c, otherwise it stays
   * after the whitespace.
   */
  function SkipWsAndRead(s: string, i: nat, c: char): (r: Step)
    requires i <= |s|
    ensures i <= r.pos <= |s| && r.text == []
    ensures r.ok <==> SkipWs(s, i) < |s| && s[SkipWs(s, i)] == c
    ensures r.ok ==> r.pos == SkipWs(s, i) + 1
    ensures !r.ok ==> r.pos == SkipWs(s, i)
  {
    var j := SkipWs(s, i);
    if j < |s| && s[j] == c then Step(true, j + 1, []) else Step(false, j, [])
  }

  /** read_qstring: a '"', then everything up to the next '"' (no escapes). */
  function ReadQString(s: string, i: nat): (r: Step)
    requires i <= |s|
    ensures i <= r.pos <= |s|
    ensures r.ok ==> r.pos >= i + 2 + |r.text|
    ensures !r.ok ==> r.text == []
  {
    var q := SkipWsAndRead(s, i, '"');
    if q.ok then
      match FindChr(s, q.pos, '"')
      case Some(end) => Step(true, end + 1, Substr(s, q.pos, end))
      case None => Step(false, q.pos, [])
    else q
  }

  /** A quoted string read is the text between two '"' that holds no '"'. */
  lemma ReadQStringContent(s: string, i: nat)
    requires i <= |s|
    ensures var r := ReadQString(s, i);
            r.ok ==> && s[r.pos - 1] == '"' && s[r.pos - 2 - |r.text|] == '"'
                     && r.text == Substr(s, r.pos - 1 - |r.text|, r.pos - 1)
                     && '"' !in r.text
  {
    var q := SkipWsAndRead(s, i, '"');
    if q.ok && FindChr(s, q.pos, '"').Some? {
      FindChrGap(s, q.pos, '"');
    }
  }

  /** read_ptoken: a non-empty, maximal run of ptoken chars. */
  function ReadPtoken(s: string, i: nat): (r: Step)
    requires i <= |s|
    ensures i <= r.pos <= |s|
    ensures r.ok ==> 0 < |r.text| <= r.pos - i
    ensures !r.ok ==> r.text == []
  {
    var j := SkipWs(s, i);
    var k := PtokenRun(s, j);
    if j < |s| && k > j then Step(true, k, Substr(s, j, k)) else Step(false, j, [])
  }

  /** A ptoken read consists of ptoken chars and is followed by none. */
  lemma ReadPtokenIsPtoken(s: string, i: nat)
    requires i <= |s|
    ensures var r := ReadPtoken(s, i);
            r.ok ==> && r.text == Substr(s, r.pos - |r.text|, r.pos)
                     && AllPtoken(r.text) && (r.pos == |s| || !PtokenChar(s[r.pos]))
  {
    PtokenRunMaximal(s, SkipWs(s, i));
  }

  /**
   * read_link: "<", then the text up to the first later ">", which becomes
   * the link; the cursor ends just past ">".
   */
  function ReadLink(s: string, i: nat): (r: Step)
    requires i <= |s|
    ensures i <= r.pos <= |s|
    ensures r.ok ==> r.pos >= i + 2
  {
    var q := SkipWsAndRead(s, i, '<');
    if q.ok then
      match FindChr(s, q.pos, '>')
      case Some(end) => Step(true, end + 1, Substr(s, q.pos, end))
      case None => Step(false, q.pos, [])
    else q
  }

  /**
   * read_link succeeds exactly when, after the whitespace, a '<' is
   * followed somewhere by a '>'; the link is the text between them, which
   * holds no '>'.
   */
  lemma ReadLinkSpec(s: string, i: nat)
    requires i <= |s|
    ensures var r, j := ReadLink(s, i), SkipWs(s, i);
            && (r.ok <==> j < |s| && s[j] == '<' && FindChr(s, j + 1, '>').Some?)
            && (r.ok ==> r.pos - 1 == FindChr(s, j + 1, '>').value
                         && r.text == Substr(s, j + 1, r.pos - 1)
                         && '>' !in r.text)
  {
    var j := SkipWs(s, i);
    if j < |s| && s[j] == '<' && FindChr(s, j + 1, '>').Some? {
      FindChrGap(s, j + 1, '>');
    }
  }

  /** read_pname: a non-empty, maximal run of attr-chars. */
  function ReadPname(s: string, i: nat): (r: Step)
    requires i <= |s|
    ensures i <= r.pos <= |s|
    ensures r.ok ==> 0 < |r.text| <= r.pos - i
    ensures !r.ok ==> r.text == []
  {
    var j := SkipWs(s, i);
    var k := AttrRun(s, j);
    if j < |s| && k > j then Step(true, k, Substr(s, j, k)) else Step(false, j, [])
  }

  /** A name read by read_pname is a parmname, and the run it came from is maximal. */
  lemma ReadPnameIsParmname(s: string, i: nat)
    requires i <= |s|
    ensures var r := ReadPname(s, i);
            r.ok ==> && r.text == Substr(s, r.pos - |r.text|, r.pos)
                     && AllAttr(r.text) && (r.pos == |s| || !AttrChar(s[r.pos]))
  {
    AttrRunMaximal(s, SkipWs(s, i));
  }

  /**
   * read_pvalue: "=", then a quoted string or a ptoken. A failed quoted
   * string leaves the cursor past its opening '"', and the ptoken attempt
   * starts there.
   */
  function ReadPvalue(s: string, i: nat): (r: Step)
    requires i <= |s|
    ensures i <= r.pos <= |s|
    ensures r.ok ==> r.pos > i
    ensures !r.ok ==> r.text == []
  {
    var eq := SkipWsAndRead(s, i, '=');
    if eq.ok then
      var q := ReadQString(s, eq.pos);
      if q.ok then q else ReadPtoken(s, q.pos)
    else eq
  }

  /** A value read by read_pvalue is either a quoted string's content or a ptoken. */
  lemma ReadPvalueShape(s: string, i: nat)
    requires i <= |s|
    ensures var r := ReadPvalue(s, i);
            r.ok ==> ('"' !in r.text && r.pos >= 2 && s[r.pos - 1] == '"')
                     || (|r.text| > 0 && AllPtoken(r.text))
  {
    var eq := SkipWsAndRead(s, i, '=');
    if eq.ok {
      var q := ReadQString(s, eq.pos);
      ReadQStringContent(s, eq.pos);
      if !q.ok {
        ReadPtokenIsPtoken(s, q.pos);
      }
    }
  }

  /** Outcome of read_param: success, cursor afterwards, the parameter read. */
  datatype ParamStep = ParamStep(ok: bool, pos: nat, param: Entry)

  /**
   * read_param: ";", a parameter name and an optional value. A missing or
   * malformed value is read as "". The C function stores the parameter
   * with apr_table_setn at once; here the parameters read are collected in
   * order and stored by SetAll, which applies the same setn calls in the
   * same order.
   */
  function ReadParam(s: string, i: nat): (r: ParamStep)
    requires i <= |s|
    ensures i <= r.pos <= |s|
    ensures r.ok ==> r.pos >= i + 2 && |r.param.key| > 0
    ensures !r.ok ==> r.param == Entry([], [])
  {
    var semi := SkipWsAndRead(s, i, ';');
    if semi.ok then
      var name := ReadPname(s, semi.pos);
      if name.ok then
        var value := ReadPvalue(s, name.pos);
        ParamStep(true, value.pos, Entry(name.text, value.text))
      else ParamStep(false, name.pos, Entry([], []))
    else ParamStep(false, semi.pos, Entry([], []))
  }

  /** A parameter read by read_param has a parmname as its name. */
  lemma ReadParamName(s: string, i: nat)
    requires i <= |s|
    ensures var r := ReadParam(s, i);
            r.ok ==> |r.param.key| > 0 && AllAttr(r.param.key)
  {
    var semi := SkipWsAndRead(s, i, ';');
    if semi.ok {
      ReadPnameIsParmname(s, semi.pos);
    }
  }

  /** read_sep: a "," after optional whitespace. */
  function ReadSep(s: string, i: nat): (r: Step)
    requires i <= |s|
    ensures i <= r.pos <= |s|
    ensures r.ok <==> SkipWs(s, i) < |s| && s[SkipWs(s, i)] == ','
    ensures r.ok ==> r.pos > i
  {
    SkipWsAndRead(s, i, ',')
  }

  /**
   * `while (read_param(ctx)) {}`: the cursor where the loop stops and the
   * parameters read, in order.
   */
  function ReadParams(s: string, i: nat): (r: (nat, Table))
    requires i <= |s|
    ensures i <= r.0 <= |s|
    decreases |s| - i
  {
    var p := ReadParam(s, i);
    if p.ok then
      var (j, ps) := ReadParams(s, p.pos);
      (j, [p.param] + ps)
    else (p.pos, [])
  }

  /** Every parameter the loop reads has a parmname as its name. */
  lemma {:induction false} ReadParamsNames(s: string, i: nat)
    requires i <= |s|
    ensures forall k :: 0 <= k < |ReadParams(s, i).1| ==>
              |ReadParams(s, i).1[k].key| > 0 && AllAttr(ReadParams(s, i).1[k].key)
    decreases |s| - i
  {
    var p := ReadParam(s, i);
    if p.ok {
      ReadParamName(s, i);
      ReadParamsNames(s, p.pos);
    }
  }

  /**
   * Outcome of one turn of the inspect_link loop: whether a link-value was
   * read, the link-value (its parameters stored into a freshly cleared
   * table), whether a separator followed, and the cursor afterwards.
   */
  datatype LinkStep = LinkStep(ok: bool, value: LinkValue, more: bool, pos: nat)

  /**
   * One turn of the inspect_link loop: read_link, then read_param until it
   * fails, then read_sep.
   */
  function ReadLinkValue(s: string, i: nat): (r: LinkStep)
    requires i <= |s|
    ensures i <= r.pos <= |s|
    ensures r.ok && r.more ==> r.pos > i
    ensures !r.ok ==> !r.more
  {
    var l := ReadLink(s, i);
    if !l.ok then LinkStep(false, LinkValue([], []), false, l.pos)
    else
      var (p, ps) := ReadParams(s, l.pos);
      var sep := ReadSep(s, p);
      LinkStep(true, LinkValue(l.text, SetAll([], ps)), sep.ok, sep.pos)
  }

  /**
   * The loop of inspect_link from cursor i: the link-values read, in order,
   * until a link or a separator cannot be read.
   */
  function Links(s: string, i: nat): (r: seq<LinkValue>)
    requires i <= |s|
    ensures |r| <= |s| - i
    decreases |s| - i
  {
    var r := ReadLinkValue(s, i);
    if !r.ok then []
    else if r.more then [r.value] + Links(s, r.pos)
    else [r.value]
  }

  /** No link read contains '>'. */
  lemma {:induction false} LinksHaveNoGt(s: string, i: nat)
    requires i <= |s|
    ensures forall k :: 0 <= k < |Links(s, i)| ==> '>' !in Links(s, i)[k].link
    decreases |s| - i
  {
    var r := ReadLinkValue(s, i);
    if r.ok {
      ReadLinkSpec(s, i);
      if r.more {
        LinksHaveNoGt(s, r.pos);
      }
    }
  }

  /** inspect_link: every link-value of one Link header value, in order. */
  function InspectLink(s: string): (r: seq<LinkValue>)
    ensures |r| <= |s|
    ensures s == [] ==> r == []
  {
    Links(s, 0)
  }
}
