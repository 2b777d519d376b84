/**
 * The push candidate filter of modules/http2/h2_push.c: which link-values of
 * a response's Link headers become server pushes, and what those pushes
 * carry.
 *
 * apr_uri_parse and apr_uri_unparse (with APR_URI_UNP_OMITSITEPART) are
 * parameters: `parse` returns None where apr_uri_parse fails, and `unparse`
 * gives the path-and-query text of a parsed URI. h2_request_create and
 * h2_request_end_headers are not modelled beyond the fields passed to them.
 */
module Push {
  import opened Common
  import opened AprTable
  import opened LinkScanner

  /** The H2_PUSH_* policies a stream can have. */
  datatype PushPolicy = PushNone | PushDefault | PushHead | PushFastLoad

  /** policy_str: the value written to the "push-policy" response header. */
  function PolicyName(p: PushPolicy): (r: string)
  {
    match p
    case PushNone => "none"
    case PushFastLoad => "fast-load"
    case PushHead => "head"
    case PushDefault => "default"
  }

  /** The header value names the policy unambiguously. */
  lemma PolicyNameInjective(p: PushPolicy, q: PushPolicy)
    ensures PolicyName(p) == PolicyName(q) <==> p == q
  {
    if p != q {
      assert PolicyName(p)[0] != PolicyName(q)[0] || |PolicyName(p)| != |PolicyName(q)|;
    }
  }

  /** The fields of the h2_request the filter reads. */
  datatype Request = Request(scheme: string, authority: string, path: string, headers: Table)

  /** The parts of an apr_uri_t the filter reads; None stands for NULL. */
  datatype Uri = Uri(scheme: Option<string>, hostinfo: Option<string>, path: Option<string>)

  /** The H2_DEPENDANT_* stream dependency kinds. */
  datatype Dependency = DependantAfter | DependantInterleaved | DependantBefore

  /**
   * An h2_push: the request to push and an optional priority (NULL in C
   * unless the link carries "critical").
   */
  datatype Push = Push(
    httpMethod: string, scheme: string, authority: string, path: string,
    headers: Table, priority: Option<Dependency>)

  /** sub occurs in s at index k. */
  predicate OccursAt(s: string, k: nat, sub: string) {
    k + |sub| <= |s| && s[k..k + |sub|] == sub
  }

  /** strstr: the first index at or after i where sub occurs. */
  function FindSub(s: string, sub: string, i: nat): (r: Option<nat>)
    requires i <= |s|
    ensures r.Some? ==> i <= r.value && OccursAt(s, r.value, sub)
    ensures r.Some? ==> forall j :: i <= j < r.value ==> !OccursAt(s, j, sub)
    ensures r.None? ==> forall j :: i <= j <= |s| ==> !OccursAt(s, j, sub)
    decreases |s| - i
  {
    if i + |sub| > |s| then None
    else if s[i..i + |sub|] == sub then Some(i)
    else FindSub(s, sub, i + 1)
  }

  /** rel occurs at k as a whole space-separated word of val. */
  predicate WordAt(val: string, k: nat, rel: string) {
    && OccursAt(val, k, rel)
    && (k == 0 || val[k - 1] == ' ')
    && (k + |rel| == |val| || val[k + |rel|] == ' ')
  }

  /** has_param: the link-value carries a parameter of that name. */
  predicate HasParam(params: Table, name: string) {
    Get(params, name).Some?
  }

  /** rel occurs at k as a whole word, and nowhere before k. */
  predicate FirstWordAt(val: string, k: nat, rel: string) {
    WordAt(val, k, rel) && forall j :: 0 <= j < k ==> !OccursAt(val, j, rel)
  }

  /**
   * has_relation: the "rel" parameter equals rel, or the first occurrence
   * of rel in it is a whole space-separated word. Every accepted relation
   * is a word of the "rel" value with no occurrence of rel before it.
   */
  function HasRelation(params: Table, rel: string): (r: bool)
    ensures r ==> Get(params, "rel").Some? && exists k :: FirstWordAt(Get(params, "rel").value, k, rel)
  {
    var v := Get(params, "rel");
    if v.None? then false
    else if rel == v.value then
      assert FirstWordAt(v.value, 0, rel);
      true
    else
      match FindSub(v.value, rel, 0)
      case None => false
      case Some(k) =>
        assert WordAt(v.value, k, rel) ==> FirstWordAt(v.value, k, rel);
        WordAt(v.value, k, rel)
  }

  /** A word that is the first occurrence of rel is always accepted. */
  lemma HasRelationFirstWord(params: Table, rel: string, k: nat)
    requires Get(params, "rel").Some?
    requires WordAt(Get(params, "rel").value, k, rel)
    requires forall j :: 0 <= j < k ==> !OccursAt(Get(params, "rel").value, j, rel)
    ensures HasRelation(params, rel)
  {
    var v := Get(params, "rel").value;
    if rel != v {
      var f := FindSub(v, rel, 0);
      assert f == Some(k);
    }
  }

  /**
   * has_relation accepts exactly when the "rel" value has a whole-word
   * occurrence of rel with no occurrence of rel before it.
   */
  lemma HasRelationIff(params: Table, rel: string)
    ensures HasRelation(params, rel) <==>
              Get(params, "rel").Some? && exists k :: FirstWordAt(Get(params, "rel").value, k, rel)
  {
    if Get(params, "rel").Some? && exists k :: FirstWordAt(Get(params, "rel").value, k, rel) {
      var k :| FirstWordAt(Get(params, "rel").value, k, rel);
      HasRelationFirstWord(params, rel, k);
    }
  }

  /** A value whose only occurrence of rel is a whole word is accepted. */
  lemma HasRelationOnlyWord(params: Table, rel: string, k: nat)
    requires Get(params, "rel").Some?
    requires WordAt(Get(params, "rel").value, k, rel)
    requires forall j :: 0 <= j < |Get(params, "rel").value| && j != k ==>
               !OccursAt(Get(params, "rel").value, j, rel)
    ensures HasRelation(params, rel)
  {
    HasRelationFirstWord(params, rel, k);
  }

  /** An absent rel, or one that occurs nowhere in the value, is refused. */
  lemma HasRelationAbsent(params: Table, rel: string)
    requires Get(params, "rel").None? ||
             forall j :: 0 <= j <= |Get(params, "rel").value| ==> !OccursAt(Get(params, "rel").value, j, rel)
    ensures !HasRelation(params, rel)
  {
  }

  /** "x preload" names the preload relation. */
  lemma PreloadAmongOthers()
    ensures HasRelation([Entry("rel", "x preload")], "preload")
  {
    var v := "x preload";
    assert Get([Entry("rel", v)], "rel") == Some(v) by {
      EqualsIgnoreCaseRefl("rel");
    }
    assert forall j :: 0 <= j < 2 ==> !OccursAt(v, j, "preload") by {
      assert v[0..7][0] == 'x' && v[1..8][0] == ' ';
    }
    assert WordAt(v, 2, "preload");
    HasRelationFirstWord([Entry("rel", v)], "preload", 2);
  }

  /** "preloaded" does not name the preload relation. */
  lemma PreloadedIsNotPreload()
    ensures !HasRelation([Entry("rel", "preloaded")], "preload")
  {
    var v := "preloaded";
    assert Get([Entry("rel", v)], "rel") == Some(v) by {
      EqualsIgnoreCaseRefl("rel");
    }
    assert OccursAt(v, 0, "preload");
    assert FindSub(v, "preload", 0) == Some(0);
    assert !WordAt(v, 0, "preload");
  }

  /**
   * Only the first occurrence is examined: in "preloadx preload" the word
   * "preload" at index 9 is not seen, because the occurrence at index 0 is
   * part of "preloadx".
   */
  lemma OnlyFirstOccurrenceCounts()
    ensures WordAt("preloadx preload", 9, "preload")
    ensures !HasRelation([Entry("rel", "preloadx preload")], "preload")
  {
    var v := "preloadx preload";
    assert Get([Entry("rel", v)], "rel") == Some(v) by {
      EqualsIgnoreCaseRefl("rel");
    }
    assert OccursAt(v, 0, "preload");
    assert FindSub(v, "preload", 0) == Some(0);
    assert !WordAt(v, 0, "preload");
    assert v[9..16] == "preload";
  }

  /**
   * same_authority: a scheme or host the URI names must be the request's;
   * a URI that names neither is always acceptable.
   */
  predicate SameAuthority(req: Request, uri: Uri) {
    && (uri.scheme.None? || uri.scheme.value == req.scheme)
    && (uri.hostinfo.None? || uri.hostinfo.value == req.authority)
  }

  /** The request headers set_push_header lets through to a push. */
  predicate PushHeaderAllowed(key: string) {
    || EqualsIgnoreCase(key, "User-Agent")
    || EqualsIgnoreCase(key, "Accept")
    || EqualsIgnoreCase(key, "Accept-Encoding")
    || EqualsIgnoreCase(key, "Accept-Language")
    || EqualsIgnoreCase(key, "Cache-Control")
  }

  /** Whether a key is allowed does not depend on its spelling. */
  lemma PushHeaderAllowedEquiv(a: string, b: string)
    requires EqualsIgnoreCase(a, b)
    ensures PushHeaderAllowed(a) <==> PushHeaderAllowed(b)
  {
    EqualsIgnoreCaseEquiv(a, b, "User-Agent");
    EqualsIgnoreCaseEquiv(a, b, "Accept");
    EqualsIgnoreCaseEquiv(a, b, "Accept-Encoding");
    EqualsIgnoreCaseEquiv(a, b, "Accept-Language");
    EqualsIgnoreCaseEquiv(a, b, "Cache-Control");
  }

  /**
   * apr_table_do(set_push_header, t, hs): every allowed entry of hs is
   * stored into t with apr_table_setn, in order.
   */
  function CopyAllowed(t: Table, hs: Table): Table
    decreases |hs|
  {
    if hs == [] then t
    else if PushHeaderAllowed(hs[0].key) then CopyAllowed(Set(t, hs[0].key, hs[0].val), hs[1..])
    else CopyAllowed(t, hs[1..])
  }

  /** The headers of a push made for a request with headers hs. */
  function PushHeaders(hs: Table): (r: Table)
    ensures forall e :: e in r ==> PushHeaderAllowed(e.key)
  {
    CopyAllowedKeys([], hs);
    CopyAllowed([], hs)
  }

  lemma {:induction false} CopyAllowedKeys(t: Table, hs: Table)
    requires forall e :: e in t ==> PushHeaderAllowed(e.key)
    ensures forall e :: e in CopyAllowed(t, hs) ==> PushHeaderAllowed(e.key)
    decreases |hs|
  {
    if hs != [] {
      if PushHeaderAllowed(hs[0].key) {
        SetKeepsKeys(t, hs[0].key, hs[0].val, PushHeaderAllowed);
        CopyAllowedKeys(Set(t, hs[0].key, hs[0].val), hs[1..]);
      } else {
        CopyAllowedKeys(t, hs[1..]);
      }
    }
  }

  lemma {:induction false} CopyAllowedGet(t: Table, hs: Table, key: string)
    ensures PushHeaderAllowed(key) ==>
              Get(CopyAllowed(t, hs), key) ==
              if LastValue(hs, key).Some? then LastValue(hs, key) else Get(t, key)
    ensures !PushHeaderAllowed(key) ==> Get(CopyAllowed(t, hs), key) == Get(t, key)
    decreases |hs|
  {
    if hs != [] {
      var e := hs[0];
      if PushHeaderAllowed(e.key) {
        var t' := Set(t, e.key, e.val);
        CopyAllowedGet(t', hs[1..], key);
        if KeyMatches(e, key) {
          PushHeaderAllowedEquiv(e.key, key);
          SetThenGetEquiv(t, e.key, e.val, key);
        } else {
          SetOtherKey(t, e.key, e.val, key);
        }
      } else {
        CopyAllowedGet(t, hs[1..], key);
        if KeyMatches(e, key) {
          PushHeaderAllowedEquiv(e.key, key);
        }
      }
    }
  }

  /**
   * A push carries, for each of the five allowed request headers, the value
   * of the request's last entry of that name, and no other header.
   */
  lemma PushHeadersGet(hs: Table, key: string)
    ensures Get(PushHeaders(hs), key) == if PushHeaderAllowed(key) then LastValue(hs, key) else None
  {
    CopyAllowedGet([], hs, key);
  }

  /**
   * add_push: the push a link-value produces for a request under a policy,
   * or None when the link is not a same-authority preload.
   */
  function AddPush(
    req: Request, policy: PushPolicy, lv: LinkValue,
    parse: string -> Option<Uri>, unparse: Uri -> string): (r: Option<Push>)
    ensures r.Some? <==>
              && HasRelation(lv.params, "preload") && !HasParam(lv.params, "nopush")
              && parse(lv.link).Some? && parse(lv.link).value.path.Some?
              && SameAuthority(req, parse(lv.link).value)
    ensures r.Some? ==> r.value.httpMethod == (if policy == PushHead then "HEAD" else "GET")
    ensures r.Some? ==> r.value.scheme == req.scheme && r.value.authority == req.authority
    ensures r.Some? ==> r.value.path == unparse(parse(lv.link).value)
    ensures r.Some? ==> r.value.priority == (if HasParam(lv.params, "critical") then Some(DependantBefore) else None)
    ensures r.Some? ==> r.value.headers == PushHeaders(req.headers)
    ensures r.Some? ==> forall e :: e in r.value.headers ==> PushHeaderAllowed(e.key)
  {
    if HasRelation(lv.params, "preload") && !HasParam(lv.params, "nopush") then
      match parse(lv.link)
      case None => None
      case Some(uri) =>
        if uri.path.Some? && SameAuthority(req, uri) then
          var httpMethod := match policy
            case PushHead => "HEAD"
            case _ => "GET";
          var prio := if HasParam(lv.params, "critical") then Some(DependantBefore) else None;
          Some(Push(httpMethod, req.scheme, req.authority, unparse(uri), PushHeaders(req.headers), prio))
        else None
    else None
  }

  /** add_push over each link-value of one Link header, in order. */
  function PushesOf(
    req: Request, policy: PushPolicy, lvs: seq<LinkValue>,
    parse: string -> Option<Uri>, unparse: Uri -> string): (r: seq<Push>)
    ensures |r| <= |lvs|
  {
    if lvs == [] then []
    else
      var rest := PushesOf(req, policy, lvs[1..], parse, unparse);
      match AddPush(req, policy, lvs[0], parse, unparse)
      case Some(p) => [p] + rest
      case None => rest
  }

  /** Collecting from two runs of link-values is collecting from each. */
  lemma {:induction false} PushesOfAppend(
    req: Request, policy: PushPolicy, a: seq<LinkValue>, b: seq<LinkValue>,
    parse: string -> Option<Uri>, unparse: Uri -> string)
    ensures PushesOf(req, policy, a + b, parse, unparse) ==
            PushesOf(req, policy, a, parse, unparse) + PushesOf(req, policy, b, parse, unparse)
  {
    if a == [] {
      assert a + b == b;
    } else {
      assert (a + b)[1..] == a[1..] + b;
      PushesOfAppend(req, policy, a[1..], b, parse, unparse);
    }
  }

  /**
   * The pushes are exactly the pushes of link-values that add_push
   * accepts: every push comes from one, and every accepted one is there.
   */
  lemma PushesOfMembers(
    req: Request, policy: PushPolicy, lvs: seq<LinkValue>,
    parse: string -> Option<Uri>, unparse: Uri -> string)
    ensures forall p :: p in PushesOf(req, policy, lvs, parse, unparse) <==>
              exists k :: 0 <= k < |lvs| && AddPush(req, policy, lvs[k], parse, unparse) == Some(p)
  {
    forall p | p in PushesOf(req, policy, lvs, parse, unparse)
      ensures exists k :: 0 <= k < |lvs| && AddPush(req, policy, lvs[k], parse, unparse) == Some(p)
    {
      var k := PushOrigin(req, policy, lvs, parse, unparse, p);
    }
    forall p, k | 0 <= k < |lvs| && AddPush(req, policy, lvs[k], parse, unparse) == Some(p)
      ensures p in PushesOf(req, policy, lvs, parse, unparse)
    {
      PushFromLink(req, policy, lvs, parse, unparse, k);
    }
  }

  /** Every push comes from some link-value. */
  lemma {:induction false} PushOrigin(
    req: Request, policy: PushPolicy, lvs: seq<LinkValue>,
    parse: string -> Option<Uri>, unparse: Uri -> string, p: Push) returns (k: nat)
    requires p in PushesOf(req, policy, lvs, parse, unparse)
    ensures k < |lvs| && AddPush(req, policy, lvs[k], parse, unparse) == Some(p)
  {
    if AddPush(req, policy, lvs[0], parse, unparse) == Some(p) {
      k := 0;
    } else {
      var j := PushOrigin(req, policy, lvs[1..], parse, unparse, p);
      k := j + 1;
      assert lvs[1..][j] == lvs[k];
    }
  }

  /** Every accepted link-value gives a push. */
  lemma {:induction false} PushFromLink(
    req: Request, policy: PushPolicy, lvs: seq<LinkValue>,
    parse: string -> Option<Uri>, unparse: Uri -> string, k: nat)
    requires k < |lvs| && AddPush(req, policy, lvs[k], parse, unparse).Some?
    ensures AddPush(req, policy, lvs[k], parse, unparse).value in PushesOf(req, policy, lvs, parse, unparse)
  {
    if k > 0 {
      assert lvs[1..][k - 1] == lvs[k];
      PushFromLink(req, policy, lvs[1..], parse, unparse, k - 1);
    }
  }


  /** s with every apr_isspace character left out. */
  function DropSpace(s: string): (r: string)
    ensures |r| <= |s|
    ensures forall k :: 0 <= k < |r| ==> !IsSpace(r[k])
    ensures forall c :: c in r <==> c in s && !IsSpace(c)
  {
    if s == [] then []
    else if IsSpace(s[0]) then DropSpace(s[1..])
    else [s[0]] + DropSpace(s[1..])
  }

  /**
   * The header names head_iter inspects: apr_strnatcasecmp("link", key) == 0.
   * Natural comparison skips white space in both strings and folds case;
   * its digit-run rule never applies, because "link" has no digits (a digit
   * in key meets a letter or the end of "link" and the strings differ).
   */
  predicate IsLinkHeader(key: string) {
    EqualsIgnoreCase("link", DropSpace(key))
  }

  /**
   * A Link name followed by white space, the key make_table leaves for a
   * line such as "Link : ...", is still a Link header for head_iter.
   */
  lemma TrailingSpaceLinkHeader(w: string, ws: string)
    requires EqualsIgnoreCase("link", w)
    requires forall k :: 0 <= k < |ws| ==> IsSpace(ws[k])
    ensures IsLinkHeader(w + ws)
  {
    EqualsIgnoreCaseLower("link", w);
    forall k | 0 <= k < |w|
      ensures !IsSpace(w[k])
    {
      assert ToLower(w[k]) == LowerStr("link")[k] == ToLower("link"[k]);
    }
    NoSpace(w);
    DropSpaceSkips(w, ws, []);
    assert w + ws + [] == w + ws && w + [] == w;
  }

  /** A string without white space is its own DropSpace. */
  lemma {:induction false} NoSpace(s: string)
    requires forall k :: 0 <= k < |s| ==> !IsSpace(s[k])
    ensures DropSpace(s) == s
  {
    if s != [] {
      NoSpace(s[1..]);
      assert [s[0]] + s[1..] == s;
    }
  }

  /** Dropping white space first changes nothing. */
  lemma {:induction false} DropSpaceIdempotent(s: string)
    ensures DropSpace(DropSpace(s)) == DropSpace(s)
  {
    if s != [] {
      DropSpaceIdempotent(s[1..]);
      if !IsSpace(s[0]) {
        assert ([s[0]] + DropSpace(s[1..]))[1..] == DropSpace(s[1..]);
      }
    }
  }

  /** Inserting white space into a header name never changes whether it is a Link header. */
  lemma LinkHeaderIgnoresSpace(a: string, ws: string, b: string)
    requires forall k :: 0 <= k < |ws| ==> IsSpace(ws[k])
    ensures IsLinkHeader(a + ws + b) <==> IsLinkHeader(a + b)
  {
    DropSpaceSkips(a, ws, b);
  }

  lemma {:induction false} DropSpaceSkips(a: string, ws: string, b: string)
    requires forall k :: 0 <= k < |ws| ==> IsSpace(ws[k])
    ensures DropSpace(a + ws + b) == DropSpace(a + b)
  {
    if a == [] {
      assert a + ws + b == ws + b && a + b == b;
      DropSpaceOfSpace(ws, b);
    } else {
      assert (a + ws + b)[1..] == a[1..] + ws + b;
      assert (a + b)[1..] == a[1..] + b;
      DropSpaceSkips(a[1..], ws, b);
    }
  }

  lemma {:induction false} DropSpaceOfSpace(ws: string, b: string)
    requires forall k :: 0 <= k < |ws| ==> IsSpace(ws[k])
    ensures DropSpace(ws + b) == DropSpace(b)
  {
    if ws == [] {
      assert ws + b == b;
    } else {
      assert (ws + b)[0] == ws[0] && IsSpace(ws[0]);
      assert (ws + b)[1..] == ws[1..] + b;
      DropSpaceOfSpace(ws[1..], b);
    }
  }

  /** The link-values of all Link headers, header after header. */
  function LinkValuesOf(hs: Table): seq<LinkValue>
  {
    if hs == [] then []
    else if IsLinkHeader(hs[0].key) then InspectLink(hs[0].val) + LinkValuesOf(hs[1..])
    else LinkValuesOf(hs[1..])
  }

  /**
   * apr_table_do(head_iter, ...): for each Link header in turn, inspect_link
   * runs add_push on its link-values.
   */
  function HeadIter(
    req: Request, policy: PushPolicy, hs: Table,
    parse: string -> Option<Uri>, unparse: Uri -> string): seq<Push>
  {
    if hs == [] then []
    else if IsLinkHeader(hs[0].key) then
      PushesOf(req, policy, InspectLink(hs[0].val), parse, unparse) + HeadIter(req, policy, hs[1..], parse, unparse)
    else HeadIter(req, policy, hs[1..], parse, unparse)
  }

  /**
   * Pushes come out in scan order: header by header, and within a header
   * link-value by link-value.
   */
  lemma {:induction false} HeadIterOrder(
    req: Request, policy: PushPolicy, hs: Table,
    parse: string -> Option<Uri>, unparse: Uri -> string)
    ensures HeadIter(req, policy, hs, parse, unparse) == PushesOf(req, policy, LinkValuesOf(hs), parse, unparse)
  {
    if hs != [] {
      HeadIterOrder(req, policy, hs[1..], parse, unparse);
      if IsLinkHeader(hs[0].key) {
        PushesOfAppend(req, policy, InspectLink(hs[0].val), LinkValuesOf(hs[1..]), parse, unparse);
      }
    }
  }

  /**
   * h2_push_collect: the pushes found (None for NULL, which is returned when
   * there is no request, the policy is "none", the response has no headers,
   * or no candidate was found) and the response headers afterwards.
   */
  function Collect(
    req: Option<Request>, policy: PushPolicy, resHeaders: Option<Table>,
    parse: string -> Option<Uri>, unparse: Uri -> string): (r: (Option<seq<Push>>, Option<Table>))
    ensures req.None? || policy == PushNone || resHeaders.None? ==> r == (None, resHeaders)
    ensures r.0.Some? ==> r.0.value != [] && req.Some? && resHeaders.Some?
    ensures r.0.None? ==> r.1 == resHeaders
    ensures r.0.Some? ==> r.1.Some? && Get(r.1.value, "push-policy") == Some(PolicyName(policy))
    ensures r.0.Some? ==> forall k :: !EqualsIgnoreCase("push-policy", k) ==>
              Get(r.1.value, k) == Get(resHeaders.value, k)
  {
    if req.Some? && policy != PushNone && resHeaders.Some? then
      var pushes := HeadIter(req.value, policy, resHeaders.value, parse, unparse);
      if pushes != [] then
        var hs := Set(resHeaders.value, "push-policy", PolicyName(policy));
        SetThenGet(resHeaders.value, "push-policy", PolicyName(policy));
        forall k | !EqualsIgnoreCase("push-policy", k)
          ensures Get(hs, k) == Get(resHeaders.value, k)
        {
          SetOtherKey(resHeaders.value, "push-policy", PolicyName(policy), k);
        }
        (Some(pushes), Some(hs))
      else (None, resHeaders)
    else (None, resHeaders)
  }

  /**
   * The collected pushes are the add_push results of the Link header
   * link-values in scan order, and every one of them is such a result.
   */
  lemma CollectPushes(
    req: Request, policy: PushPolicy, hs: Table,
    parse: string -> Option<Uri>, unparse: Uri -> string)
    requires policy != PushNone
    ensures var r := Collect(Some(req), policy, Some(hs), parse, unparse);
            && (r.0.Some? <==> PushesOf(req, policy, LinkValuesOf(hs), parse, unparse) != [])
            && (r.0.Some? ==> r.0.value == PushesOf(req, policy, LinkValuesOf(hs), parse, unparse))
            && (r.0.Some? ==> forall p :: p in r.0.value ==>
                  exists k :: 0 <= k < |LinkValuesOf(hs)| && AddPush(req, policy, LinkValuesOf(hs)[k], parse, unparse) == Some(p))
  {
    HeadIterOrder(req, policy, hs, parse, unparse);
    PushesOfMembers(req, policy, LinkValuesOf(hs), parse, unparse);
  }
}
