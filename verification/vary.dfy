/**
 * uniq_field_values and fix_vary: all Vary header fields of a response are
 * split into their comma/space separated tokens, repeats (ignoring case)
 * are dropped, and the survivors replace the fields as one comma-joined
 * Vary value.
 */
module Vary {
  import opened Common
  import opened AprTable

  /** The characters that separate field tokens: ',' and apr_isspace. */
  predicate IsSep(c: char) { c == ',' || IsSpace(c) }

  /** A token as uniq_field_values stores it: non-empty, no separator in it. */
  predicate IsToken(t: string) {
    t != [] && forall k :: 0 <= k < |t| ==> !IsSep(t[k])
  }

  /** No separator anywhere in t. */
  predicate NoSep(t: string) {
    forall k :: 0 <= k < |t| ==> !IsSep(t[k])
  }

  /** The length of the run of non-separators s starts with. */
  function TokenLen(s: string): (r: nat)
    ensures r <= |s|
    ensures r < |s| ==> IsSep(s[r])
    ensures NoSep(s[..r])
  {
    if s == [] || IsSep(s[0]) then 0
    else
      var r := 1 + TokenLen(s[1..]);
      assert s[..r] == [s[0]] + s[1..][..r - 1];
      r
  }

  /**
   * The tokens of a field value, in order of occurrence, as the do-while
   * loop of uniq_field_values finds them: separators are skipped, and each
   * maximal run of other characters is one token.
   */
  function Tokens(s: string): (r: seq<string>)
    ensures forall k :: 0 <= k < |r| ==> IsToken(r[k])
    decreases |s|
  {
    if s == [] then []
    else if IsSep(s[0]) then Tokens(s[1..])
    else
      var k := TokenLen(s);
      [s[..k]] + Tokens(s[k..])
  }

  /* ---------- splitting a joined list gives the list back ---------- */

  lemma {:induction false} TokenLenOf(t: string, rest: string)
    requires NoSep(t) && (rest == [] || IsSep(rest[0]))
    ensures TokenLen(t + rest) == |t|
    decreases |t|
  {
    if t != [] {
      assert (t + rest)[1..] == t[1..] + rest;
      TokenLenOf(t[1..], rest);
    }
  }

  /** Tokens of a token followed by a separator (or the end) and more text. */
  lemma TokensCons(t: string, rest: string)
    requires IsToken(t) && (rest == [] || IsSep(rest[0]))
    ensures Tokens(t + rest) == [t] + Tokens(rest)
  {
    TokenLenOf(t, rest);
    assert (t + rest)[..|t|] == t;
    assert (t + rest)[|t|..] == rest;
  }

  /** Splitting the comma-joined tokens gives the tokens back. */
  lemma {:induction false} TokensOfJoin(ts: seq<string>)
    requires forall k :: 0 <= k < |ts| ==> IsToken(ts[k])
    ensures Tokens(Join(ts, ',')) == ts
    decreases |ts|
  {
    if |ts| == 1 {
      TokensCons(ts[0], []);
      assert ts[0] + [] == ts[0];
    } else if |ts| > 1 {
      var j := Join(ts[1..], ',');
      var rest := [','] + j;
      assert Join(ts, ',') == ts[0] + rest;
      TokensCons(ts[0], rest);
      assert rest[1..] == j;
      TokensOfJoin(ts[1..]);
      assert Tokens(rest) == ts[1..];
    }
  }

  /* ---------- collecting the tokens ---------- */

  /** Some stored value equals t ignoring case. */
  predicate Represented(values: seq<string>, t: string) {
    exists k :: 0 <= k < |values| && EqualsIgnoreCase(values[k], t)
  }

  /** No two stored values are equal ignoring case. */
  predicate Distinct(values: seq<string>) {
    forall i, j :: 0 <= i < j < |values| ==> !EqualsIgnoreCase(values[i], values[j])
  }

  /** The inner loop of uniq_field_values: push t unless it is already represented. */
  function AddUniq(values: seq<string>, t: string): (r: seq<string>)
  {
    if Represented(values, t) then values else values + [t]
  }

  /** The tokens of each value in turn, added with AddUniq. */
  function AddAll(values: seq<string>, ts: seq<string>): (r: seq<string>)
    decreases |ts|
  {
    if ts == [] then values else AddAll(AddUniq(values, ts[0]), ts[1..])
  }

  /** uniq_field_values: the tokens of val added to values. */
  function UniqFieldValues(values: seq<string>, val: string): (r: seq<string>)
  {
    AddAll(values, Tokens(val))
  }

  lemma AddUniqSpec(values: seq<string>, t: string)
    requires Distinct(values)
    ensures Distinct(AddUniq(values, t))
    ensures Represented(AddUniq(values, t), t)
    ensures values <= AddUniq(values, t)
    ensures forall x :: x in AddUniq(values, t) ==> x in values || x == t
  {
    if !Represented(values, t) {
      var r := values + [t];
      forall i, j | 0 <= i < j < |r|
        ensures !EqualsIgnoreCase(r[i], r[j])
      {
        if j == |values| {
          assert !EqualsIgnoreCase(values[i], t);
        }
      }
      EqualsIgnoreCaseRefl(t);
      assert r[|values|] == t;
    }
  }

  lemma {:induction false} RepresentedGrows(a: seq<string>, b: seq<string>, t: string)
    requires a <= b && Represented(a, t)
    ensures Represented(b, t)
  {
    var k :| 0 <= k < |a| && EqualsIgnoreCase(a[k], t);
    assert b[k] == a[k];
  }

  /**
   * Adding tokens keeps the values distinct ignoring case, keeps the old
   * values as a prefix, represents every token, and adds nothing else.
   */
  lemma {:induction false} AddAllSpec(values: seq<string>, ts: seq<string>)
    requires Distinct(values)
    ensures Distinct(AddAll(values, ts))
    ensures values <= AddAll(values, ts)
    ensures forall k :: 0 <= k < |ts| ==> Represented(AddAll(values, ts), ts[k])
    ensures forall x :: x in AddAll(values, ts) ==> x in values || x in ts
    decreases |ts|
  {
    if ts != [] {
      var v1 := AddUniq(values, ts[0]);
      AddUniqSpec(values, ts[0]);
      AddAllSpec(v1, ts[1..]);
      var r := AddAll(values, ts);
      RepresentedGrows(v1, r, ts[0]);
      forall k | 0 <= k < |ts|
        ensures Represented(r, ts[k])
      {
        if k > 0 {
          assert ts[k] == ts[1..][k - 1];
        }
      }
    }
  }

  /**
   * uniq_field_values keeps what was stored in front, stores only tokens
   * of val, represents every one of them, and never stores two values
   * that are equal ignoring case. What it appends are the first
   * occurrences of val's tokens, in order and in their first spelling.
   */
  lemma UniqFieldValuesSpec(values: seq<string>, val: string)
    requires Distinct(values) && forall k :: 0 <= k < |values| ==> IsToken(values[k])
    ensures var r := UniqFieldValues(values, val);
            && Distinct(r)
            && values <= r
            && (forall k :: 0 <= k < |r| ==> IsToken(r[k]))
            && (forall t :: t in Tokens(val) ==> Represented(r, t))
            && (forall x :: x in r ==> x in values || x in Tokens(val))
            && r == values + FirstOccurrences(values, Tokens(val))
  {
    var ts := Tokens(val);
    AddAllSpec(values, ts);
    AddAllFirstOccurrences(values, ts);
    var r := UniqFieldValues(values, val);
    forall k | 0 <= k < |r|
      ensures IsToken(r[k])
    {
      assert r[k] in r;
    }
  }

  /** Tokens that are pairwise distinct ignoring case are all kept, in order. */
  lemma {:induction false} AddAllDistinct(values: seq<string>, ts: seq<string>)
    requires Distinct(values + ts)
    ensures AddAll(values, ts) == values + ts
    decreases |ts|
  {
    if ts != [] {
      forall k | 0 <= k < |values|
        ensures !EqualsIgnoreCase(values[k], ts[0])
      {
        assert (values + ts)[k] == values[k] && (values + ts)[|values|] == ts[0];
      }
      assert values + ts == (values + [ts[0]]) + ts[1..];
      AddAllDistinct(values + [ts[0]], ts[1..]);
    }
  }

  /* ---------- first occurrences: a reference for AddAll ---------- */

  /**
   * The tokens of ts that nothing before them represents (neither seen nor
   * an earlier token of ts), in order: each token is kept in the spelling
   * of its first occurrence.
   */
  function FirstOccurrences(seen: seq<string>, ts: seq<string>): seq<string>
    decreases |ts|
  {
    if ts == [] then []
    else
      var init := ts[..|ts| - 1];
      var last := ts[|ts| - 1];
      FirstOccurrences(seen, init) + (if Represented(seen + init, last) then [] else [last])
  }

  /**
   * A value is kept only as some token that nothing before it represents,
   * and every such token is kept.
   */
  lemma {:induction false} FirstOccurrencesMembers(seen: seq<string>, ts: seq<string>)
    ensures forall x :: x in FirstOccurrences(seen, ts) ==>
              exists k :: 0 <= k < |ts| && ts[k] == x && !Represented(seen + ts[..k], x)
    ensures forall k :: 0 <= k < |ts| && !Represented(seen + ts[..k], ts[k]) ==>
              ts[k] in FirstOccurrences(seen, ts)
    decreases |ts|
  {
    if ts != [] {
      var init := ts[..|ts| - 1];
      var last := ts[|ts| - 1];
      FirstOccurrencesMembers(seen, init);
      var fo := FirstOccurrences(seen, init);
      forall x | x in FirstOccurrences(seen, ts)
        ensures exists k :: 0 <= k < |ts| && ts[k] == x && !Represented(seen + ts[..k], x)
      {
        if x in fo {
          var k :| 0 <= k < |init| && init[k] == x && !Represented(seen + init[..k], x);
          assert ts[k] == init[k] && ts[..k] == init[..k];
        } else {
          assert ts[..|ts| - 1] == init;
        }
      }
      forall k | 0 <= k < |ts| && !Represented(seen + ts[..k], ts[k])
        ensures ts[k] in FirstOccurrences(seen, ts)
      {
        if k < |init| {
          assert ts[k] == init[k] && ts[..k] == init[..k];
        } else {
          assert ts[..k] == init;
        }
      }
    }
  }

  /** Adding one more token at the end is one more AddUniq. */
  lemma {:induction false} AddAllSnoc(values: seq<string>, ts: seq<string>, t: string)
    ensures AddAll(values, ts + [t]) == AddUniq(AddAll(values, ts), t)
    decreases |ts|
  {
    if ts == [] {
      assert ts + [t] == [t] && [t][1..] == [];
    } else {
      assert (ts + [t])[0] == ts[0] && (ts + [t])[1..] == ts[1..] + [t];
      AddAllSnoc(AddUniq(values, ts[0]), ts[1..], t);
    }
  }

  /** Adding the tokens of a then of b is adding the tokens of a + b. */
  lemma {:induction false} AddAllAppend(values: seq<string>, a: seq<string>, b: seq<string>)
    ensures AddAll(values, a + b) == AddAll(AddAll(values, a), b)
    decreases |a|
  {
    if a == [] {
      assert a + b == b;
    } else {
      assert (a + b)[0] == a[0] && (a + b)[1..] == a[1..] + b;
      AddAllAppend(AddUniq(values, a[0]), a[1..], b);
    }
  }

  /** Dropping a token already represented does not change what is represented. */
  lemma RepresentedAddUniq(values: seq<string>, t0: string, rest: seq<string>, t: string)
    ensures Represented(AddUniq(values, t0) + rest, t) <==> Represented(values + [t0] + rest, t)
  {
    if Represented(values, t0) {
      var j :| 0 <= j < |values| && EqualsIgnoreCase(values[j], t0);
      var a := values + rest;
      var b := values + [t0] + rest;
      if Represented(a, t) {
        var k :| 0 <= k < |a| && EqualsIgnoreCase(a[k], t);
        if k < |values| {
          assert b[k] == a[k];
        } else {
          assert b[k + 1] == a[k];
        }
      }
      if Represented(b, t) {
        var k :| 0 <= k < |b| && EqualsIgnoreCase(b[k], t);
        if k < |values| {
          assert a[k] == b[k];
        } else if k == |values| {
          EqualsIgnoreCaseEquiv(values[j], t0, t);
          assert a[j] == values[j];
        } else {
          assert a[k - 1] == b[k];
        }
      }
    } else {
      assert AddUniq(values, t0) + rest == values + [t0] + rest;
    }
  }

  /** The stored values represent exactly what the old values and the tokens do. */
  lemma {:induction false} RepresentedAddAll(values: seq<string>, ts: seq<string>, t: string)
    ensures Represented(AddAll(values, ts), t) <==> Represented(values + ts, t)
    decreases |ts|
  {
    if ts == [] {
      assert values + ts == values;
    } else {
      RepresentedAddAll(AddUniq(values, ts[0]), ts[1..], t);
      RepresentedAddUniq(values, ts[0], ts[1..], t);
      assert values + [ts[0]] + ts[1..] == values + ts;
    }
  }

  /**
   * AddAll keeps exactly the first occurrences: the old values followed by
   * each token nothing before it represents, in order of occurrence and in
   * the spelling first seen.
   */
  lemma {:induction false} AddAllFirstOccurrences(values: seq<string>, ts: seq<string>)
    ensures AddAll(values, ts) == values + FirstOccurrences(values, ts)
    decreases |ts|
  {
    if ts == [] {
      assert values + [] == values;
    } else {
      var init := ts[..|ts| - 1];
      var last := ts[|ts| - 1];
      assert ts == init + [last];
      AddAllSnoc(values, init, last);
      AddAllFirstOccurrences(values, init);
      RepresentedAddAll(values, init, last);
    }
  }

  /** Of two spellings of one token only the first is kept: "b, a, A" stores b and a. */
  lemma KeepsFirstSpelling(a: string, b: string, a2: string)
    requires !EqualsIgnoreCase(a, b) && EqualsIgnoreCase(a, a2)
    ensures AddAll([], [b, a, a2]) == [b, a]
  {
    if EqualsIgnoreCase(b, a) {
      EqualsIgnoreCaseEquiv(b, a, b);
      assert false;
    }
    assert !Represented([b], a) by {
      assert [b][0] == b;
    }
    assert Represented([b, a], a2) by {
      assert EqualsIgnoreCase([b, a][1], a2);
    }
    calc {
      AddAll([], [b, a, a2]);
      AddAll(AddUniq([], b), [a, a2]);
      { assert AddUniq([], b) == [] + [b] == [b]; }
      AddAll([b], [a, a2]);
      AddAll(AddUniq([b], a), [a2]);
      { assert AddUniq([b], a) == [b] + [a] == [b, a]; }
      AddAll([b, a], [a2]);
      AddAll(AddUniq([b, a], a2), []);
      [b, a];
    }
  }

  /** The tokens of each value in turn. */
  function AllTokens(vals: seq<string>): seq<string>
    decreases |vals|
  {
    if vals == [] then [] else Tokens(vals[0]) + AllTokens(vals[1..])
  }

  /* ---------- fix_vary ---------- */

  /** The values of the Vary fields, in table order (apr_table_do on "Vary"). */
  function VaryValues(t: Table): (r: seq<string>)
    ensures |r| <= |t|
  {
    if t == [] then []
    else (if KeyMatches(t[0], "Vary") then [t[0].val] else []) + VaryValues(t[1..])
  }

  /** uniq_field_values applied to each Vary value in turn. */
  function CollectVary(values: seq<string>, vals: seq<string>): seq<string>
    decreases |vals|
  {
    if vals == [] then values else CollectVary(UniqFieldValues(values, vals[0]), vals[1..])
  }

  /** Collecting value by value is adding all their tokens in one go. */
  lemma {:induction false} CollectVaryIsAddAll(values: seq<string>, vals: seq<string>)
    ensures CollectVary(values, vals) == AddAll(values, AllTokens(vals))
    decreases |vals|
  {
    if vals != [] {
      CollectVaryIsAddAll(UniqFieldValues(values, vals[0]), vals[1..]);
      AddAllAppend(values, Tokens(vals[0]), AllTokens(vals[1..]));
    }
  }

  /**
   * Over all the Vary values the collected tokens stay distinct tokens,
   * there are none exactly when no value has a token, and they are the old
   * values followed by the first occurrences of all the values' tokens.
   */
  lemma {:induction false} CollectVarySpec(values: seq<string>, vals: seq<string>)
    requires Distinct(values) && forall k :: 0 <= k < |values| ==> IsToken(values[k])
    ensures var r := CollectVary(values, vals);
            && Distinct(r)
            && (forall k :: 0 <= k < |r| ==> IsToken(r[k]))
            && (r == [] <==> values == [] && forall v :: v in vals ==> Tokens(v) == [])
            && r == values + FirstOccurrences(values, AllTokens(vals))
    decreases |vals|
  {
    CollectVaryIsAddAll(values, vals);
    AddAllFirstOccurrences(values, AllTokens(vals));
    if vals != [] {
      var v1 := UniqFieldValues(values, vals[0]);
      UniqFieldValuesSpec(values, vals[0]);
      CollectVarySpec(v1, vals[1..]);
      var ts := Tokens(vals[0]);
      var r := CollectVary(v1, vals[1..]);
      assert r == CollectVary(values, vals);
      if ts != [] {
        assert ts[0] in ts;
        var k :| 0 <= k < |v1| && EqualsIgnoreCase(v1[k], ts[0]);
        assert r != [] && vals[0] in vals && Tokens(vals[0]) != [];
      } else {
        assert v1 == values;
        assert (forall v :: v in vals ==> Tokens(v) == []) <==> (forall v :: v in vals[1..] ==> Tokens(v) == []) by {
          assert forall v :: v in vals <==> v == vals[0] || v in vals[1..];
        }
      }
    }
  }

  /** The de-duplicated Vary tokens of a header table. */
  function VaryTokens(t: Table): (r: seq<string>)
  {
    CollectVary([], VaryValues(t))
  }

  /** fix_vary: replace the Vary fields by one field of the joined tokens, if any. */
  function FixVary(t: Table): (r: Table)
  {
    var vs := VaryTokens(t);
    if vs == [] then t else Set(t, "Vary", Join(vs, ','))
  }

  /**
   * After fix_vary the Vary field reads as the collected tokens joined by
   * commas, and every other field reads as before; without any token the
   * table is unchanged. The collected tokens are pairwise distinct ignoring
   * case, and they are the first occurrences of the tokens of all Vary
   * fields, in order and in their first spelling: each is such a token, and
   * each such token is represented.
   */
  lemma FixVarySpec(t: Table)
    ensures var vs := VaryTokens(t);
            var ts := AllTokens(VaryValues(t));
            && Distinct(vs)
            && vs == FirstOccurrences([], ts)
            && (forall x :: x in vs ==> x in ts)
            && (forall k :: 0 <= k < |ts| ==> Represented(vs, ts[k]))
            && (vs == [] ==> FixVary(t) == t)
            && (vs != [] ==> Get(FixVary(t), "Vary") == Some(Join(vs, ','))
                             && Tokens(Join(vs, ',')) == vs)
            && (forall other :: !EqualsIgnoreCase("Vary", other) ==>
                  Get(FixVary(t), other) == Get(t, other))
  {
    var vs := VaryTokens(t);
    CollectVarySpec([], VaryValues(t));
    VaryTokensFirst(t);
    if vs != [] {
      SetThenGet(t, "Vary", Join(vs, ','));
      TokensOfJoin(vs);
      forall other | !EqualsIgnoreCase("Vary", other)
        ensures Get(FixVary(t), other) == Get(t, other)
      {
        SetOtherKey(t, "Vary", Join(vs, ','), other);
      }
    }
  }

  /**
   * The collected tokens are the first occurrences of the tokens of all
   * Vary fields: each is such a token, and each such token is represented.
   */
  lemma VaryTokensFirst(t: Table)
    ensures var vs := VaryTokens(t);
            var ts := AllTokens(VaryValues(t));
            && vs == FirstOccurrences([], ts)
            && (forall x :: x in vs ==> x in ts)
            && (forall k :: 0 <= k < |ts| ==> Represented(vs, ts[k]))
  {
    var vs := VaryTokens(t);
    var ts := AllTokens(VaryValues(t));
    CollectVaryIsAddAll([], VaryValues(t));
    assert vs == FirstOccurrences([], ts) by {
      AddAllFirstOccurrences([], ts);
      assert [] + FirstOccurrences([], ts) == FirstOccurrences([], ts);
    }
    forall x | x in vs
      ensures x in ts
    {
      FirstOccurrencesMembers([], ts);
      var k :| 0 <= k < |ts| && ts[k] == x && !Represented([] + ts[..k], x);
    }
    forall k | 0 <= k < |ts|
      ensures Represented(vs, ts[k])
    {
      RepresentedAddAll([], ts, ts[k]);
      EqualsIgnoreCaseRefl(ts[k]);
      assert ([] + ts)[k] == ts[k];
    }
  }

  /** Every Vary token of the input is represented after fix_vary. */
  lemma {:induction false} CollectVaryRepresents(values: seq<string>, vals: seq<string>, i: nat, t: string)
    requires Distinct(values) && forall k :: 0 <= k < |values| ==> IsToken(values[k])
    requires i < |vals| && t in Tokens(vals[i])
    ensures Represented(CollectVary(values, vals), t)
    decreases |vals|
  {
    var v1 := UniqFieldValues(values, vals[0]);
    UniqFieldValuesSpec(values, vals[0]);
    if i == 0 {
      CollectVaryPrefix(v1, vals[1..]);
      RepresentedGrows(v1, CollectVary(v1, vals[1..]), t);
    } else {
      CollectVaryRepresents(v1, vals[1..], i - 1, t);
    }
  }

  lemma {:induction false} CollectVaryPrefix(values: seq<string>, vals: seq<string>)
    requires Distinct(values) && forall k :: 0 <= k < |values| ==> IsToken(values[k])
    ensures values <= CollectVary(values, vals)
    decreases |vals|
  {
    if vals != [] {
      UniqFieldValuesSpec(values, vals[0]);
      CollectVaryPrefix(UniqFieldValues(values, vals[0]), vals[1..]);
    }
  }

  lemma {:induction false} VaryValuesAppend(a: Table, b: Table)
    ensures VaryValues(a + b) == VaryValues(a) + VaryValues(b)
  {
    if a != [] {
      assert (a + b)[1..] == a[1..] + b;
      VaryValuesAppend(a[1..], b);
    } else {
      assert a + b == b;
    }
  }

  lemma {:induction false} VaryValuesNone(t: Table)
    requires forall j :: 0 <= j < |t| ==> !KeyMatches(t[j], "Vary")
    ensures VaryValues(t) == []
  {
    if t != [] {
      VaryValuesNone(t[1..]);
    }
  }

  /** After setn of Vary, the only Vary value is the one set. */
  lemma VaryValuesOfSet(t: Table, v: string)
    requires Contains(t, "Vary")
    ensures VaryValues(Set(t, "Vary", v)) == [v]
  {
    var i := FirstMatch(t, "Vary");
    var w := Without(t[i+1..], "Vary");
    VaryValuesNone(t[..i]);
    VaryValuesNone(w);
    VaryValuesAppend(t[..i] + [Entry(t[i].key, v)], w);
    VaryValuesAppend(t[..i], [Entry(t[i].key, v)]);
  }

  /** A table without any Vary field has no Vary tokens. */
  lemma NoVaryNoTokens(t: Table)
    requires !Contains(t, "Vary")
    ensures VaryTokens(t) == []
  {
    VaryValuesNone(t);
  }

  /** fix_vary is idempotent: its output has nothing left to merge. */
  lemma FixVaryIdempotent(t: Table)
    ensures FixVary(FixVary(t)) == FixVary(t)
  {
    var vs := VaryTokens(t);
    CollectVarySpec([], VaryValues(t));
    if vs != [] {
      if !Contains(t, "Vary") {
        NoVaryNoTokens(t);
      }
      var v := Join(vs, ',');
      VaryValuesOfSet(t, v);
      TokensOfJoin(vs);
      assert [] + vs == vs;
      AddAllDistinct([], vs);
      assert CollectVary([], [v]) == CollectVary(UniqFieldValues([], v), []);
      assert VaryTokens(FixVary(t)) == vs;
      SetIdempotent(t, "Vary", v);
    }
  }
}
