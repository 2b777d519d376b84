/**
 * A writer for Link header values, used as the independent partner of the
 * scanner in link_scanner.dfy: scanning the text written for well-formed
 * link-values gives those link-values back (InspectLinkOfFormat).
 *
 * The writer emits `<uri>; name="value"; ...` and separates link-values
 * with ", ", as servers commonly do.
 */
module LinkFormat {
  import opened Common
  import opened AprTable
  import opened LinkScanner

  function FormatParam(e: Entry): string {
    "; " + e.key + "=\"" + e.val + "\""
  }

  function FormatParams(ps: Table): string {
    if ps == [] then [] else FormatParam(ps[0]) + FormatParams(ps[1..])
  }

  function FormatLink(lv: LinkValue): string {
    "<" + lv.link + ">" + FormatParams(lv.params)
  }

  function Format(lvs: seq<LinkValue>): string {
    if lvs == [] then []
    else if |lvs| == 1 then FormatLink(lvs[0])
    else FormatLink(lvs[0]) + ", " + Format(lvs[1..])
  }

  /** A parameter the scanner can read back: an attr-char name, a value without '"'. */
  predicate ParamOk(e: Entry) {
    |e.key| > 0 && AllAttr(e.key) && '"' !in e.val
  }

  predicate EachParamOk(ps: Table) {
    forall k :: 0 <= k < |ps| ==> ParamOk(ps[k])
  }

  /** Readable parameters whose names differ even ignoring case. */
  predicate ParamsOk(ps: Table) {
    && EachParamOk(ps)
    && (forall j, k :: 0 <= j < k < |ps| ==> !EqualsIgnoreCase(ps[j].key, ps[k].key))
  }

  predicate LinkOk(lv: LinkValue) {
    '>' !in lv.link && ParamsOk(lv.params)
  }

  /** The text x occurs in s at position i. */
  predicate StartsAt(s: string, i: nat, x: string) {
    i + |x| <= |s| && MatchesAt(s, i, x)
  }

  /**
   * Character-by-character comparison; kept recursive so that a fact about a
   * long written text is unfolded only as far as a proof asks for.
   */
  predicate MatchesAt(s: string, i: nat, x: string)
    requires i + |x| <= |s|
    decreases |x|
  {
    x == [] || (s[i] == x[0] && MatchesAt(s, i + 1, x[1..]))
  }

  lemma {:induction false} StartsAtSplit(s: string, i: nat, a: string, b: string)
    requires StartsAt(s, i, a + b)
    ensures StartsAt(s, i, a) && StartsAt(s, i + |a|, b)
    decreases |a|
  {
    if a == [] {
      assert a + b == b;
    } else {
      assert (a + b)[0] == a[0];
      assert (a + b)[1..] == a[1..] + b;
      StartsAtSplit(s, i + 1, a[1..], b);
    }
  }

  lemma {:induction false} StartsAtChar(s: string, i: nat, x: string, k: nat)
    requires StartsAt(s, i, x) && k < |x|
    ensures s[i + k] == x[k]
    decreases k
  {
    if k > 0 {
      StartsAtChar(s, i + 1, x[1..], k - 1);
    }
  }

  lemma {:induction false} StartsAtSlice(s: string, i: nat, x: string)
    requires StartsAt(s, i, x)
    ensures s[i..i + |x|] == x
    decreases |x|
  {
    if x != [] {
      StartsAtSlice(s, i + 1, x[1..]);
      assert s[i..i + |x|] == [s[i]] + s[i + 1..i + |x|];
      assert x == [x[0]] + x[1..];
    }
  }

  /** Every suffix of s occurs in s where it starts. */
  lemma {:induction false} StartsAtSuffix(s: string, i: nat)
    requires i <= |s|
    ensures StartsAt(s, i, s[i..])
    decreases |s| - i
  {
    if i < |s| {
      StartsAtSuffix(s, i + 1);
      assert s[i..][1..] == s[i + 1..];
    }
  }

  lemma StartsAtChars(s: string, i: nat, x: string)
    requires StartsAt(s, i, x)
    ensures forall k :: 0 <= k < |x| ==> s[i + k] == x[k]
  {
    forall k | 0 <= k < |x| ensures s[i + k] == x[k] {
      StartsAtChar(s, i, x, k);
    }
  }

  /** The writer's text for a link-value ends at the end or at a ','. */
  predicate EndOrComma(s: string, j: nat) {
    j == |s| || (j < |s| && s[j] == ',')
  }

  lemma FindChrAt(s: string, i: nat, k: nat, c: char)
    requires i <= k < |s| && s[k] == c
    requires forall j :: i <= j < k ==> s[j] != c
    ensures FindChr(s, i, c) == Some(k)
    decreases k - i
  {
    if i < k {
      FindChrAt(s, i + 1, k, c);
    }
  }

  lemma ReadLinkAt(s: string, i: nat, link: string)
    requires StartsAt(s, i, "<" + link + ">") && '>' !in link
    ensures ReadLink(s, i) == Step(true, i + |link| + 2, link)
  {
    StartsAtSplit(s, i, "<" + link, ">");
    StartsAtSplit(s, i, "<", link);
    StartsAtChar(s, i, "<", 0);
    assert SkipWs(s, i) == i;
    var e := i + 1 + |link|;
    StartsAtChar(s, e, ">", 0);
    forall j | i + 1 <= j < e ensures s[j] != '>' {
      StartsAtChar(s, i + 1, link, j - i - 1);
    }
    FindChrAt(s, i + 1, e, '>');
    StartsAtSlice(s, i + 1, link);
    SubstrIsSlice(s, i + 1, e);
  }

  /** The length of the writer's text for one parameter. */
  function ParamLength(e: Entry): nat {
    5 + |e.key| + |e.val|
  }

  /** The characters of one written parameter, position by position. */
  lemma FormatParamChars(e: Entry)
    ensures var f, n, v := FormatParam(e), |e.key|, |e.val|;
            && |f| == ParamLength(e)
            && f[0] == ';' && f[1] == ' ' && f[2 + n] == '=' && f[3 + n] == '"'
            && f[4 + n + v] == '"'
            && (forall k :: 0 <= k < n ==> f[2 + k] == e.key[k])
            && (forall k :: 0 <= k < v ==> f[4 + n + k] == e.val[k])
  {
  }

  lemma {:induction false} AttrRunAt(s: string, i: nat, j: nat)
    requires i <= j <= |s| && AllAttr(s[i..j])
    requires j == |s| || !AttrChar(s[j])
    ensures AttrRun(s, i) == j
    decreases j - i
  {
    if i < j {
      assert s[i..j][0] == s[i];
      assert s[i + 1..j] == s[i..j][1..];
      AttrRunAt(s, i + 1, j);
    }
  }

  lemma ReadPnameAt(s: string, p: nat, key: string)
    requires p + 2 + |key| <= |s| && s[p] == ' ' && s[p + 1 + |key|] == '='
    requires s[p + 1..p + 1 + |key|] == key
    requires |key| > 0 && AllAttr(key)
    ensures ReadPname(s, p) == Step(true, p + 1 + |key|, key)
  {
    var n := |key|;
    assert SkipWs(s, p) == p + 1 by {
      assert s[p + 1] == key[0];
      assert SkipWs(s, p + 1) == p + 1;
    }
    AttrRunAt(s, p + 1, p + 1 + n);
    SubstrIsSlice(s, p + 1, p + 1 + n);
  }

  lemma ReadPvalueAt(s: string, p: nat, val: string)
    requires p + 3 + |val| <= |s| && s[p] == '=' && s[p + 1] == '"' && s[p + 2 + |val|] == '"'
    requires forall k :: 0 <= k < |val| ==> s[p + 2 + k] == val[k]
    requires '"' !in val
    ensures ReadPvalue(s, p) == Step(true, p + 3 + |val|, val)
  {
    var close := p + 2 + |val|;
    assert SkipWs(s, p) == p;
    assert SkipWs(s, p + 1) == p + 1;
    forall j | p + 2 <= j < close ensures s[j] != '"' {
      assert s[p + 2 + (j - p - 2)] == val[j - p - 2];
    }
    FindChrAt(s, p + 2, close, '"');
    assert s[p + 2..close] == val;
    SubstrIsSlice(s, p + 2, close);
    assert ReadQString(s, p + 1) == Step(true, close + 1, val);
  }

  /** read_param unfolded once, given what its readers return. */
  lemma ReadParamFrom(s: string, i: nat, name: Step, value: Step)
    requires i < |s| && s[i] == ';'
    requires i + 1 <= |s| && ReadPname(s, i + 1) == name && name.ok
    requires name.pos <= |s| && ReadPvalue(s, name.pos) == value
    ensures ReadParam(s, i) == ParamStep(true, value.pos, Entry(name.text, value.text))
  {
    assert SkipWs(s, i) == i;
  }

  /** read_param on the characters `; name="value"`. */
  lemma ReadParamChars(s: string, i: nat, e: Entry)
    requires ParamOk(e)
    requires i + 5 + |e.key| + |e.val| <= |s|
    requires s[i] == ';' && s[i + 1] == ' ' && s[i + 2..i + 2 + |e.key|] == e.key
    requires s[i + 2 + |e.key|] == '=' && s[i + 3 + |e.key|] == '"'
    requires forall k :: 0 <= k < |e.val| ==> s[i + 4 + |e.key| + k] == e.val[k]
    requires s[i + 4 + |e.key| + |e.val|] == '"'
    ensures ReadParam(s, i) == ParamStep(true, i + 5 + |e.key| + |e.val|, e)
  {
    var n, v := |e.key|, |e.val|;
    ReadPnameAt(s, i + 1, e.key);
    ReadPvalueAt(s, i + 2 + n, e.val);
    ReadParamFrom(s, i, Step(true, i + 2 + n, e.key), Step(true, i + 5 + n + v, e.val));
  }

  lemma ReadParamAt(s: string, i: nat, e: Entry)
    requires StartsAt(s, i, FormatParam(e)) && ParamOk(e)
    ensures ReadParam(s, i) == ParamStep(true, i + ParamLength(e), e)
  {
    var f, n, v := FormatParam(e), |e.key|, |e.val|;
    FormatParamChars(e);
    StartsAtChars(s, i, f);
    assert s[i] == f[0] && s[i + 1] == f[1];
    assert s[i + 2 + n] == f[2 + n] && s[i + 3 + n] == f[3 + n] && s[i + 4 + n + v] == f[4 + n + v];
    forall k | 0 <= k < n ensures s[i + 2 + k] == e.key[k] {
      assert s[i + (2 + k)] == f[2 + k];
    }
    assert s[i + 2..i + 2 + n] == e.key;
    forall k | 0 <= k < v ensures s[i + 4 + n + k] == e.val[k] {
      assert s[i + (4 + n + k)] == f[4 + n + k];
    }
    ReadParamChars(s, i, e);
  }

  /** One more turn of `while (read_param(ctx))`. */
  lemma ReadParamsStep(s: string, i: nat, j: nat, e: Entry, k: nat, ps: Table)
    requires i <= |s| && ReadParam(s, i) == ParamStep(true, j, e)
    requires j <= |s| && ReadParams(s, j) == (k, ps)
    ensures ReadParams(s, i) == (k, [e] + ps)
  {
  }

  /** read_param fails, without moving, where no ';' follows. */
  lemma ReadParamStop(s: string, i: nat)
    requires EndOrComma(s, i)
    ensures ReadParam(s, i) == ParamStep(false, i, Entry([], []))
  {
    assert SkipWs(s, i) == i;
  }

  lemma EachParamOkTail(ps: Table)
    requires ps != [] && EachParamOk(ps)
    ensures ParamOk(ps[0]) && EachParamOk(ps[1..])
  {
    assert ParamOk(ps[0]);
    forall k | 0 <= k < |ps[1..]| ensures ParamOk(ps[1..][k]) {
      assert ps[1..][k] == ps[k + 1];
    }
  }

  /**
   * The successive read_param calls from i read exactly ps and the one
   * after them fails with the cursor at j.
   */
  predicate ParamsReadAt(s: string, i: nat, ps: Table, j: nat)
    requires i <= |s|
    decreases |ps|
  {
    var p := ReadParam(s, i);
    if ps == [] then !p.ok && p.pos == j
    else p.ok && p.param == ps[0] && ParamsReadAt(s, p.pos, ps[1..], j)
  }

  lemma {:induction false} ReadParamsOfReads(s: string, i: nat, ps: Table, j: nat)
    requires i <= |s| && ParamsReadAt(s, i, ps, j)
    ensures ReadParams(s, i) == (j, ps)
    decreases |ps|
  {
    if ps != [] {
      var p := ReadParam(s, i);
      ReadParamsOfReads(s, p.pos, ps[1..], j);
      ReadParamsStep(s, i, p.pos, ps[0], j, ps[1..]);
      assert ps == [ps[0]] + ps[1..];
    }
  }

  lemma ParamsReadAtCons(s: string, i: nat, k: nat, ps: Table, j: nat)
    requires i <= |s| && ps != [] && ReadParam(s, i) == ParamStep(true, k, ps[0])
    requires ParamsReadAt(s, k, ps[1..], j)
    ensures ParamsReadAt(s, i, ps, j)
  {
  }

  /**
   * The text from i is the writer's text for each parameter of ps in turn,
   * ending at j, where the end or a ',' follows.
   */
  predicate ParamsWrittenAt(s: string, i: nat, ps: Table, j: nat)
    decreases |ps|
  {
    if ps == [] then i == j && EndOrComma(s, i)
    else && StartsAt(s, i, FormatParam(ps[0])) && ParamOk(ps[0])
         && ParamsWrittenAt(s, i + ParamLength(ps[0]), ps[1..], j)
  }

  lemma {:induction false} ParamsWritten(s: string, i: nat, ps: Table)
    requires StartsAt(s, i, FormatParams(ps))
    requires EachParamOk(ps)
    requires EndOrComma(s, i + |FormatParams(ps)|)
    ensures ParamsWrittenAt(s, i, ps, i + |FormatParams(ps)|)
    decreases |ps|
  {
    if ps != [] {
      var f := FormatParam(ps[0]);
      var rest := FormatParams(ps[1..]);
      assert FormatParams(ps) == f + rest;
      FormatParamChars(ps[0]);
      StartsAtSplit(s, i, f, rest);
      EachParamOkTail(ps);
      ParamsWritten(s, i + |f|, ps[1..]);
    }
  }

  lemma ParamsWrittenTail(s: string, i: nat, ps: Table, j: nat)
    requires ps != [] && ParamsWrittenAt(s, i, ps, j)
    ensures StartsAt(s, i, FormatParam(ps[0])) && ParamOk(ps[0])
    ensures ParamsWrittenAt(s, i + ParamLength(ps[0]), ps[1..], j)
  {
  }

  lemma {:induction false} WrittenParamsAreRead(s: string, i: nat, ps: Table, j: nat)
    requires i <= |s| && ParamsWrittenAt(s, i, ps, j)
    ensures ParamsReadAt(s, i, ps, j)
    decreases |ps|
  {
    if ps == [] {
      ReadParamStop(s, i);
    } else {
      var k := i + ParamLength(ps[0]);
      ParamsWrittenTail(s, i, ps, j);
      ReadParamAt(s, i, ps[0]);
      WrittenParamsAreRead(s, k, ps[1..], j);
      ParamsReadAtCons(s, i, k, ps, j);
    }
  }

  /** setn on an absent key appends the entry as given. */
  lemma SetAbsent(t: Table, key: string, val: string)
    requires forall j :: 0 <= j < |t| ==> !KeyMatches(t[j], key)
    ensures Set(t, key, val) == t + [Entry(key, val)]
  {
  }

  lemma {:induction false} SetAllDistinct(t: Table, ps: Table)
    requires ParamsOk(t + ps)
    ensures SetAll(t, ps) == t + ps
    decreases |ps|
  {
    if ps != [] {
      var tp := t + ps;
      forall j | 0 <= j < |t| ensures !KeyMatches(t[j], ps[0].key) {
        assert tp[j] == t[j] && tp[|t|] == ps[0];
      }
      SetAbsent(t, ps[0].key, ps[0].val);
      var t' := t + [ps[0]];
      assert t' + ps[1..] == tp;
      SetAllDistinct(t', ps[1..]);
    }
  }

  /** Distinct readable parameters are rebuilt as they were by successive setn calls. */
  lemma SetAllFromEmpty(ps: Table)
    requires ParamsOk(ps)
    ensures SetAll([], ps) == ps
  {
    assert [] + ps == ps;
    SetAllDistinct([], ps);
  }

  /** Whitespace in front of a link-value does not change what one turn reads. */
  lemma ReadLinkValueSkipWs(s: string, i: nat)
    requires i < |s| && IsWsp(s[i])
    ensures ReadLinkValue(s, i) == ReadLinkValue(s, i + 1)
  {
    assert SkipWs(s, i) == SkipWs(s, i + 1);
    assert ReadLink(s, i) == ReadLink(s, i + 1);
  }

  /** One turn of the inspect_link loop, given what its readers return. */
  lemma ReadLinkValueFrom(s: string, i: nat, l: Step, p: nat, ps: Table, sep: Step)
    requires i <= |s| && ReadLink(s, i) == l && l.ok
    requires ReadParams(s, l.pos) == (p, ps)
    requires ReadSep(s, p) == sep
    ensures ReadLinkValue(s, i) == LinkStep(true, LinkValue(l.text, SetAll([], ps)), sep.ok, sep.pos)
  {
  }

  /** read_sep right after a written link-value: a ',' or the end. */
  lemma ReadSepAt(s: string, e: nat)
    requires EndOrComma(s, e)
    ensures ReadSep(s, e) == if e < |s| then Step(true, e + 1, []) else Step(false, e, [])
  {
    assert SkipWs(s, e) == e;
  }

  /** Where the parameters written from i end, the end or a ',' follows. */
  lemma {:induction false} ParamsWrittenEnd(s: string, i: nat, ps: Table, j: nat)
    requires ParamsWrittenAt(s, i, ps, j)
    ensures i <= j <= |s| && EndOrComma(s, j)
    decreases |ps|
  {
    if ps != [] {
      ParamsWrittenTail(s, i, ps, j);
      ParamsWrittenEnd(s, i + ParamLength(ps[0]), ps[1..], j);
    }
  }

  /**
   * The text from i is the writer's text for lv, whose parameters end at
   * e, where the end or a ',' follows.
   */
  predicate LinkWrittenAt(s: string, i: nat, lv: LinkValue, e: nat) {
    && StartsAt(s, i, "<" + lv.link + ">") && '>' !in lv.link
    && ParamsWrittenAt(s, i + |lv.link| + 2, lv.params, e)
  }

  lemma LinkWritten(s: string, i: nat, lv: LinkValue)
    requires StartsAt(s, i, FormatLink(lv)) && LinkOk(lv)
    requires EndOrComma(s, i + |FormatLink(lv)|)
    ensures LinkWrittenAt(s, i, lv, i + |FormatLink(lv)|)
  {
    var head := "<" + lv.link + ">";
    var fp := FormatParams(lv.params);
    assert FormatLink(lv) == head + fp;
    StartsAtSplit(s, i, head, fp);
    ParamsWritten(s, i + |head|, lv.params);
  }

  /** read_link and the read_param calls after it return what was written. */
  lemma LinkWrittenIsRead(s: string, i: nat, lv: LinkValue, e: nat)
    requires i <= |s| && LinkWrittenAt(s, i, lv, e)
    ensures var j := i + |lv.link| + 2;
            && ReadLink(s, i) == Step(true, j, lv.link) && j <= |s|
            && ParamsReadAt(s, j, lv.params, e) && EndOrComma(s, e)
  {
    var j := i + |lv.link| + 2;
    assert ReadLink(s, i) == Step(true, j, lv.link) by {
      ReadLinkAt(s, i, lv.link);
    }
    assert j <= e <= |s| && EndOrComma(s, e) by {
      ParamsWrittenEnd(s, j, lv.params, e);
    }
    WrittenParamsAreRead(s, j, lv.params, e);
  }

  /** One turn of the loop reads lv when its readers return lv's parts. */
  lemma ReadLinkValueOfReads(s: string, i: nat, lv: LinkValue, j: nat, e: nat)
    requires i <= |s| && ReadLink(s, i) == Step(true, j, lv.link) && j <= |s|
    requires ParamsReadAt(s, j, lv.params, e) && EndOrComma(s, e) && ParamsOk(lv.params)
    ensures ReadLinkValue(s, i) == LinkStep(true, lv, e < |s|, if e < |s| then e + 1 else e)
  {
    ReadParamsOfReads(s, j, lv.params, e);
    SetAllFromEmpty(lv.params);
    ReadSepAt(s, e);
    ReadLinkValueFrom(s, i, Step(true, j, lv.link), e, lv.params, ReadSep(s, e));
  }

  /** The link-value written at i is read back by one turn of the loop. */
  lemma ReadLinkValueAt(s: string, i: nat, lv: LinkValue, e: nat)
    requires i <= |s| && LinkWrittenAt(s, i, lv, e) && ParamsOk(lv.params)
    ensures ReadLinkValue(s, i) == LinkStep(true, lv, e < |s|, if e < |s| then e + 1 else e)
  {
    LinkWrittenIsRead(s, i, lv, e);
    ReadLinkValueOfReads(s, i, lv, i + |lv.link| + 2, e);
  }

  /**
   * The successive turns of the loop from i read exactly lvs: a separator
   * follows each but the last, and after the last the loop stops.
   */
  predicate LinksReadAt(s: string, i: nat, lvs: seq<LinkValue>)
    requires i <= |s|
    decreases |lvs|
  {
    var r := ReadLinkValue(s, i);
    if lvs == [] then !r.ok
    else && r.ok && r.value == lvs[0]
         && if |lvs| == 1 then !r.more else r.more && LinksReadAt(s, r.pos, lvs[1..])
  }

  lemma {:induction false} LinksOfReads(s: string, i: nat, lvs: seq<LinkValue>)
    requires i <= |s| && LinksReadAt(s, i, lvs)
    ensures Links(s, i) == lvs
    decreases |lvs|
  {
    if |lvs| > 1 {
      LinksOfReads(s, ReadLinkValue(s, i).pos, lvs[1..]);
      assert lvs == [lvs[0]] + lvs[1..];
    }
  }

  lemma LinksReadAtCons(s: string, i: nat, k: nat, lvs: seq<LinkValue>)
    requires i <= |s| && |lvs| > 1 && ReadLinkValue(s, i) == LinkStep(true, lvs[0], true, k)
    requires LinksReadAt(s, k, lvs[1..])
    ensures LinksReadAt(s, i, lvs)
  {
  }

  lemma LinksReadAtSkipWs(s: string, i: nat, lvs: seq<LinkValue>)
    requires i < |s| && IsWsp(s[i]) && LinksReadAt(s, i + 1, lvs)
    ensures LinksReadAt(s, i, lvs)
  {
    ReadLinkValueSkipWs(s, i);
  }

  /**
   * The text from i is the writer's text for the link-values lvs, each
   * but the last followed by ", ", up to the end of s.
   */
  predicate LinksWrittenAt(s: string, i: nat, lvs: seq<LinkValue>)
    decreases |lvs|
  {
    if lvs == [] then i == |s|
    else
      var e := i + |FormatLink(lvs[0])|;
      && LinkWrittenAt(s, i, lvs[0], e) && ParamsOk(lvs[0].params)
      && if |lvs| == 1 then e == |s|
         else e + 1 < |s| && s[e + 1] == ' ' && LinksWrittenAt(s, e + 2, lvs[1..])
  }

  lemma {:induction false} LinksWritten(s: string, i: nat, lvs: seq<LinkValue>)
    requires StartsAt(s, i, Format(lvs)) && i + |Format(lvs)| == |s|
    requires forall k :: 0 <= k < |lvs| ==> LinkOk(lvs[k])
    ensures LinksWrittenAt(s, i, lvs)
    decreases |lvs|
  {
    if |lvs| == 1 {
      LinkWritten(s, i, lvs[0]);
    } else if |lvs| > 1 {
      var fl, rest := FormatLink(lvs[0]), Format(lvs[1..]);
      assert Format(lvs) == (fl + ", ") + rest;
      StartsAtSplit(s, i, fl + ", ", rest);
      LinkThenSep(s, i, lvs[0]);
      assert LinkOk(lvs[0]);
      LinkWritten(s, i, lvs[0]);
      forall k | 0 <= k < |lvs[1..]| ensures LinkOk(lvs[1..][k]) {
        assert lvs[1..][k] == lvs[k + 1];
      }
      LinksWritten(s, i + |fl| + 2, lvs[1..]);
    }
  }

  /** A link-value written before ", ": where it ends, a ',' and a space follow. */
  lemma LinkThenSep(s: string, i: nat, lv: LinkValue)
    requires StartsAt(s, i, FormatLink(lv) + ", ")
    ensures var e := i + |FormatLink(lv)|;
            StartsAt(s, i, FormatLink(lv)) && e + 1 < |s| && s[e] == ',' && s[e + 1] == ' '
  {
    var e := i + |FormatLink(lv)|;
    StartsAtSplit(s, i, FormatLink(lv), ", ");
    StartsAtChar(s, e, ", ", 0);
    StartsAtChar(s, e, ", ", 1);
  }

  lemma LinksWrittenTail(s: string, i: nat, lvs: seq<LinkValue>)
    requires |lvs| > 1 && LinksWrittenAt(s, i, lvs)
    ensures var e := i + |FormatLink(lvs[0])|;
            && LinkWrittenAt(s, i, lvs[0], e) && ParamsOk(lvs[0].params)
            && e + 1 < |s| && s[e + 1] == ' ' && LinksWrittenAt(s, e + 2, lvs[1..])
  {
  }

  lemma {:induction false} WrittenLinksAreRead(s: string, i: nat, lvs: seq<LinkValue>)
    requires i <= |s| && LinksWrittenAt(s, i, lvs)
    ensures LinksReadAt(s, i, lvs)
    decreases |lvs|
  {
    if lvs == [] {
      assert SkipWs(s, i) == i;
    } else if |lvs| == 1 {
      ReadLinkValueAt(s, i, lvs[0], i + |FormatLink(lvs[0])|);
    } else {
      var e := i + |FormatLink(lvs[0])|;
      LinksWrittenTail(s, i, lvs);
      WrittenLinksAreRead(s, e + 2, lvs[1..]);
      LinksReadAtSkipWs(s, e + 1, lvs[1..]);
      ReadLinkValueAt(s, i, lvs[0], e);
      LinksReadAtCons(s, i, e + 1, lvs);
    }
  }

  /**
   * Scanning what the writer produced for well-formed link-values yields
   * exactly those link-values, parameters included and in order.
   */
  lemma InspectLinkOfFormat(lvs: seq<LinkValue>)
    requires forall k :: 0 <= k < |lvs| ==> LinkOk(lvs[k])
    ensures InspectLink(Format(lvs)) == lvs
  {
    var s := Format(lvs);
    StartsAtSuffix(s, 0);
    assert s[0..] == s;
    LinksWritten(s, 0, lvs);
    WrittenLinksAreRead(s, 0, lvs);
    LinksOfReads(s, 0, lvs);
  }
}
