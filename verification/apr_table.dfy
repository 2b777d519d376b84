/**
 * The apr_table_t semantics the HTTP/2 code relies on: an ordered list of
 * (key, value) entries whose keys are compared case-insensitively.
 *   - apr_table_get returns the value of the first matching entry;
 *   - apr_table_setn overwrites the value of the first matching entry (its
 *     key spelling is kept) and removes every later matching entry, or
 *     appends a new entry when none matches;
 *   - apr_table_merge appends ", " and the new value to the first matching
 *     entry, or appends a new entry when none matches.
 */
module AprTable {
  import opened Common

  datatype Entry = Entry(key: string, val: string)

  type Table = seq<Entry>

  predicate KeyMatches(e: Entry, key: string) {
    EqualsIgnoreCase(e.key, key)
  }

  /** Index of the first entry whose key matches, or |t| when none does. */
  function FirstMatch(t: Table, key: string): (i: nat)
    ensures i <= |t|
    ensures forall j :: 0 <= j < i ==> !KeyMatches(t[j], key)
    ensures i < |t| ==> KeyMatches(t[i], key)
  {
    if t == [] then 0
    else if KeyMatches(t[0], key) then 0
    else 1 + FirstMatch(t[1..], key)
  }

  predicate Contains(t: Table, key: string) {
    exists j :: 0 <= j < |t| && KeyMatches(t[j], key)
  }

  /** apr_table_get */
  function Get(t: Table, key: string): (r: Option<string>)
    ensures r.None? <==> !Contains(t, key)
    ensures r.Some? ==> exists j :: 0 <= j < |t| && KeyMatches(t[j], key) && t[j].val == r.value
  {
    var i := FirstMatch(t, key);
    if i < |t| then Some(t[i].val) else None
  }

  /** The entries of t whose key does not match. */
  function Without(t: Table, key: string): (r: Table)
    ensures |r| <= |t|
    ensures forall j :: 0 <= j < |r| ==> !KeyMatches(r[j], key)
  {
    if t == [] then []
    else if KeyMatches(t[0], key) then Without(t[1..], key)
    else [t[0]] + Without(t[1..], key)
  }

  /** apr_table_setn */
  function Set(t: Table, key: string, val: string): (r: Table)
  {
    var i := FirstMatch(t, key);
    if i < |t| then t[..i] + [Entry(t[i].key, val)] + Without(t[i+1..], key)
    else t + [Entry(key, val)]
  }

  /** apr_table_merge */
  function Merge(t: Table, key: string, val: string): (r: Table)
  {
    var i := FirstMatch(t, key);
    if i < |t| then t[i := Entry(t[i].key, t[i].val + ", " + val)]
    else t + [Entry(key, val)]
  }

  lemma GetFirst(t: Table, key: string, k: nat)
    requires k < |t| && KeyMatches(t[k], key)
    requires forall j :: 0 <= j < k ==> !KeyMatches(t[j], key)
    ensures Get(t, key) == Some(t[k].val)
  {
    var i := FirstMatch(t, key);
    assert i == k;
  }

  lemma GetNone(t: Table, key: string)
    requires forall j :: 0 <= j < |t| ==> !KeyMatches(t[j], key)
    ensures Get(t, key) == None
  {
  }

  /** After setn, the key reads back as the value just stored. */
  lemma SetThenGet(t: Table, key: string, val: string)
    ensures Get(Set(t, key, val), key) == Some(val)
  {
    var i := FirstMatch(t, key);
    var r := Set(t, key, val);
    if i < |t| {
      assert r[i] == Entry(t[i].key, val);
      EqualsIgnoreCaseRefl(key);
      GetFirst(r, key, i);
    } else {
      EqualsIgnoreCaseRefl(key);
      GetFirst(r, key, |t|);
    }
  }

  /** A lookup in a concatenation consults the second part only on a miss. */
  lemma {:induction false} GetAppend(a: Table, b: Table, key: string)
    ensures Get(a + b, key) == if Get(a, key).Some? then Get(a, key) else Get(b, key)
  {
    if a != [] {
      assert (a + b)[1..] == a[1..] + b;
      if !KeyMatches(a[0], key) {
        GetAppend(a[1..], b, key);
        assert Get(a + b, key) == Get(a[1..] + b, key);
        assert Get(a, key) == Get(a[1..], key);
      }
    } else {
      assert a + b == b;
    }
  }

  lemma {:induction false} GetWithout(t: Table, key: string, other: string)
    requires !EqualsIgnoreCase(key, other)
    ensures Get(Without(t, key), other) == Get(t, other)
  {
    if t != [] {
      GetWithout(t[1..], key, other);
      if KeyMatches(t[0], key) {
        EqualsIgnoreCaseEquiv(t[0].key, key, other);
        assert Get(t, other) == Get(t[1..], other);
      } else {
        GetAppend([t[0]], Without(t[1..], key), other);
        GetAppend([t[0]], t[1..], other);
        assert [t[0]] + t[1..] == t;
      }
    }
  }

  /** A lookup skips an entry whose key does not match. */
  lemma GetSkip(a: Table, e: Entry, b: Table, key: string)
    requires !KeyMatches(e, key)
    ensures Get(a + [e] + b, key) == if Get(a, key).Some? then Get(a, key) else Get(b, key)
  {
    GetAppend(a + [e], b, key);
    GetAppend(a, [e], key);
  }

  lemma SplitAround(t: Table, i: nat)
    requires i < |t|
    ensures t[..i] + [t[i]] + t[i + 1..] == t
  {
  }

  /** setn leaves every other key's lookup as it was. */
  lemma SetOtherKey(t: Table, key: string, val: string, other: string)
    requires !EqualsIgnoreCase(key, other)
    ensures Get(Set(t, key, val), other) == Get(t, other)
  {
    var i := FirstMatch(t, key);
    if i < |t| {
      var a, b := t[..i], t[i+1..];
      var e := Entry(t[i].key, val);
      assert Get(Set(t, key, val), other) == Get(a + [t[i]] + b, other) by {
        EqualsIgnoreCaseEquiv(t[i].key, key, other);
        assert Set(t, key, val) == a + [e] + Without(b, key);
        SetOtherKeyFound(a, t[i], e, b, key, other);
      }
      assert a + [t[i]] + b == t by {
        SplitAround(t, i);
      }
    } else {
      GetAppend(t, [Entry(key, val)], other);
    }
  }

  lemma SetOtherKeyFound(a: Table, old_e: Entry, e: Entry, b: Table, key: string, other: string)
    requires !KeyMatches(old_e, other) && !KeyMatches(e, other)
    requires !EqualsIgnoreCase(key, other)
    ensures Get(a + [e] + Without(b, key), other) == Get(a + [old_e] + b, other)
  {
    GetSkip(a, e, Without(b, key), other);
    GetWithout(b, key, other);
    GetSkip(a, old_e, b, other);
  }

  /** After setn exactly one entry carries the key. */
  lemma SetLeavesOneEntry(t: Table, key: string, val: string)
    ensures |set j | 0 <= j < |Set(t, key, val)| && KeyMatches(Set(t, key, val)[j], key)| == 1
  {
    var r := Set(t, key, val);
    var i := FirstMatch(t, key);
    var k := if i < |t| then i else |t|;
    assert KeyMatches(r[k], key) by {
      if i >= |t| {
        EqualsIgnoreCaseRefl(key);
      }
    }
    forall j | 0 <= j < |r| && j != k ensures !KeyMatches(r[j], key) {
      if i < |t| && j > i {
        var w := Without(t[i+1..], key);
        assert r[j] == w[j - i - 1];
      }
    }
    assert (set j | 0 <= j < |r| && KeyMatches(r[j], key)) == {k};
  }

  /** The first match is the matching entry with no match before it. */
  lemma FirstMatchAt(t: Table, key: string, k: nat)
    requires k <= |t| && (k < |t| ==> KeyMatches(t[k], key))
    requires forall j :: 0 <= j < k ==> !KeyMatches(t[j], key)
    ensures FirstMatch(t, key) == k
  {
  }

  lemma {:induction false} WithoutNoMatch(t: Table, key: string)
    requires forall j :: 0 <= j < |t| ==> !KeyMatches(t[j], key)
    ensures Without(t, key) == t
  {
    if t != [] {
      WithoutNoMatch(t[1..], key);
    }
  }

  /** setn with the value already set changes nothing. */
  lemma SetIdempotent(t: Table, key: string, val: string)
    ensures Set(Set(t, key, val), key, val) == Set(t, key, val)
  {
    var r := Set(t, key, val);
    var i := FirstMatch(t, key);
    if i < |t| {
      var w := Without(t[i+1..], key);
      assert r[..i] == t[..i] && r[i] == Entry(t[i].key, val) && r[i+1..] == w;
      FirstMatchAt(r, key, i);
      WithoutNoMatch(w, key);
    } else {
      EqualsIgnoreCaseRefl(key);
      FirstMatchAt(r, key, |t|);
      assert r[..|t|] == t && r[|t|+1..] == [];
    }
  }

  /** After merge, the first matching entry ends with the merged value. */
  lemma MergeThenGet(t: Table, key: string, val: string)
    ensures Get(t, key).None? ==> Get(Merge(t, key, val), key) == Some(val)
    ensures Get(t, key).Some? ==> Get(Merge(t, key, val), key) == Some(Get(t, key).value + ", " + val)
    ensures |Merge(t, key, val)| == if Contains(t, key) then |t| else |t| + 1
  {
    var i := FirstMatch(t, key);
    var r := Merge(t, key, val);
    if i < |t| {
      EqualsIgnoreCaseRefl(key);
      GetFirst(r, key, i);
    } else {
      EqualsIgnoreCaseRefl(key);
      GetFirst(r, key, |t|);
    }
  }

  /** The table built by apr_table_setn of each entry of ps in turn, starting from t. */
  function SetAll(t: Table, ps: Table): Table
    decreases |ps|
  {
    if ps == [] then t else SetAll(Set(t, ps[0].key, ps[0].val), ps[1..])
  }

  /** The value of the last entry of ps whose key matches, if any. */
  function LastValue(ps: Table, key: string): (r: Option<string>)
    ensures r.None? <==> !Contains(ps, key)
  {
    if ps == [] then None
    else
      var rest := LastValue(ps[1..], key);
      if rest.Some? then rest
      else if KeyMatches(ps[0], key) then Some(ps[0].val)
      else None
  }

  /** Keys that are equal ignoring case find the same first entry. */
  lemma {:induction false} FirstMatchEquiv(t: Table, a: string, b: string)
    requires EqualsIgnoreCase(a, b)
    ensures FirstMatch(t, a) == FirstMatch(t, b)
  {
    if t != [] {
      EqualsIgnoreCaseLower(a, b);
      EqualsIgnoreCaseLower(t[0].key, a);
      EqualsIgnoreCaseLower(t[0].key, b);
      FirstMatchEquiv(t[1..], a, b);
    }
  }

  /** After setn of key, every spelling of the key reads the value just stored. */
  lemma SetThenGetEquiv(t: Table, key: string, val: string, other: string)
    requires EqualsIgnoreCase(key, other)
    ensures Get(Set(t, key, val), other) == Some(val)
  {
    SetThenGet(t, key, val);
    FirstMatchEquiv(Set(t, key, val), key, other);
  }

  /**
   * Storing a list of entries with setn one after the other: a key reads
   * the last value stored under any of its spellings, and reads what the
   * table held before only when none was stored.
   */
  lemma {:induction false} SetAllGet(t: Table, ps: Table, key: string)
    ensures Get(SetAll(t, ps), key) ==
            if LastValue(ps, key).Some? then LastValue(ps, key) else Get(t, key)
    decreases |ps|
  {
    if ps != [] {
      var t' := Set(t, ps[0].key, ps[0].val);
      SetAllGet(t', ps[1..], key);
      if KeyMatches(ps[0], key) {
        SetThenGetEquiv(t, ps[0].key, ps[0].val, key);
      } else {
        SetOtherKey(t, ps[0].key, ps[0].val, key);
      }
    }
  }

  /** Every entry of Without(t, key) is an entry of t. */
  lemma {:induction false} WithoutSubset(t: Table, key: string)
    ensures forall e :: e in Without(t, key) ==> e in t
  {
    if t != [] {
      WithoutSubset(t[1..], key);
    }
  }

  /** setn keeps a property every key of the table and the new key have. */
  lemma SetKeepsKeys(t: Table, key: string, val: string, p: string -> bool)
    requires forall e :: e in t ==> p(e.key)
    requires p(key)
    ensures forall e :: e in Set(t, key, val) ==> p(e.key)
  {
    var i := FirstMatch(t, key);
    if i < |t| {
      WithoutSubset(t[i+1..], key);
      assert forall e :: e in t[i+1..] ==> e in t;
      assert forall e :: e in t[..i] ==> e in t;
    }
  }
}
