/**
 * Small building blocks shared by the HTTP/2 push and c2-filter models:
 * an Option type for the C code's NULL results and the ASCII character
 * classes of apr_lib.h (apr_isalnum, apr_isspace, apr_isdigit), taken in
 * the "C" locale.
 */
module Common {

  /** A value that may be NULL in C. */
  datatype Option<+T> = None | Some(value: T)

  /** An unsigned char. */
  type byte = x: int | 0 <= x < 256

  predicate IsDigit(c: char) { '0' <= c <= '9' }

  predicate IsUpper(c: char) { 'A' <= c <= 'Z' }

  predicate IsLower(c: char) { 'a' <= c <= 'z' }

  /** apr_isalnum in the "C" locale. */
  predicate IsAlnum(c: char) { IsDigit(c) || IsUpper(c) || IsLower(c) }

  /** apr_isspace in the "C" locale: SP, HT, LF, VT, FF, CR. */
  predicate IsSpace(c: char) {
    c == ' ' || c == '\t' || c == '\n' || c == '\U{0B}' || c == '\U{0C}' || c == '\r'
  }

  /** SP or HT, the whitespace the header and link scanners skip. */
  predicate IsWsp(c: char) { c == ' ' || c == '\t' }

  /** ASCII case folding as done by strcasecmp. */
  function ToLower(c: char): (r: char)
    ensures IsUpper(c) ==> r as int == c as int + 32
    ensures !IsUpper(c) ==> r == c
  {
    if IsUpper(c) then (c as int + 32) as char else c
  }

  function LowerStr(s: string): (r: string)
    ensures |r| == |s|
    ensures forall i :: 0 <= i < |s| ==> r[i] == ToLower(s[i])
  {
    if s == [] then [] else [ToLower(s[0])] + LowerStr(s[1..])
  }

  /**
   * Case-insensitive string equality (strcasecmp(a, b) == 0), compared
   * character by character as strcasecmp does.
   */
  predicate EqualsIgnoreCase(a: string, b: string)
    decreases |a|
  {
    && |a| == |b|
    && (a == [] || (ToLower(a[0]) == ToLower(b[0]) && EqualsIgnoreCase(a[1..], b[1..])))
  }

  /** The character-wise comparison agrees with comparing the lower-cased strings. */
  lemma {:induction false} EqualsIgnoreCaseLower(a: string, b: string)
    ensures EqualsIgnoreCase(a, b) <==> LowerStr(a) == LowerStr(b)
    decreases |a|
  {
    if |a| == |b| && a != [] {
      EqualsIgnoreCaseLower(a[1..], b[1..]);
      assert LowerStr(a) == [ToLower(a[0])] + LowerStr(a[1..]);
      assert LowerStr(b) == [ToLower(b[0])] + LowerStr(b[1..]);
      if LowerStr(a) == LowerStr(b) {
        assert LowerStr(a)[1..] == LowerStr(a[1..]);
        assert LowerStr(b)[1..] == LowerStr(b[1..]);
      }
    } else if |a| == |b| {
      assert b == [];
    }
  }

  lemma EqualsIgnoreCaseRefl(a: string)
    ensures EqualsIgnoreCase(a, a)
  {
    EqualsIgnoreCaseLower(a, a);
  }

  /** Case-insensitive equality is an equivalence: symmetric and transitive. */
  lemma EqualsIgnoreCaseEquiv(a: string, b: string, c: string)
    requires EqualsIgnoreCase(a, b)
    ensures EqualsIgnoreCase(b, a)
    ensures EqualsIgnoreCase(a, c) <==> EqualsIgnoreCase(b, c)
  {
    EqualsIgnoreCaseLower(a, b);
    EqualsIgnoreCaseLower(b, a);
    EqualsIgnoreCaseLower(a, c);
    EqualsIgnoreCaseLower(b, c);
  }

  /** Concatenation of a sequence of strings. */
  function Concat(ss: seq<string>): (r: string)
  {
    if ss == [] then [] else ss[0] + Concat(ss[1..])
  }

  lemma {:induction false} ConcatAppend(a: seq<string>, b: seq<string>)
    ensures Concat(a + b) == Concat(a) + Concat(b)
  {
    if a == [] {
      assert a + b == b;
    } else {
      assert (a + b)[1..] == a[1..] + b;
      ConcatAppend(a[1..], b);
    }
  }

  /** Sum of the lengths of a sequence of strings. */
  function TotalLength(ss: seq<string>): nat
  {
    if ss == [] then 0 else |ss[0]| + TotalLength(ss[1..])
  }

  lemma {:induction false} ConcatLength(ss: seq<string>)
    ensures |Concat(ss)| == TotalLength(ss)
  {
    if ss != [] {
      ConcatLength(ss[1..]);
    }
  }

  /** Joins strings with a one-character separator (apr_array_pstrcat). */
  function Join(ss: seq<string>, sep: char): string
  {
    if ss == [] then []
    else if |ss| == 1 then ss[0]
    else ss[0] + [sep] + Join(ss[1..], sep)
  }
}
