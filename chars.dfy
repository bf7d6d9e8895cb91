/** The optional value used for boost::optional fields and for failing parses. */
module Options {
  datatype Option<+T> = None | Some(value: T)
}

/**
 * Character classification and the string helpers built on it.
 * The tool classifies characters through the locale (`\S` in its regular
 * expressions, `iswspace`, stream extraction, `boost::trim`); this model fixes
 * one classification for all of them: the six whitespace characters of the
 * "C" locale.
 */
module Chars {

  /** Whitespace: space, tab, line feed, vertical tab, form feed, carriage return. */
  predicate IsWs(c: char) {
    c == ' ' || c == '\t' || c == '\n' || c == '\U{0B}' || c == '\U{0C}' || c == '\r'
  }

  /** No character of `s` is whitespace (a run of `\S`). */
  predicate NoWs(s: string) {
    forall i :: 0 <= i < |s| ==> !IsWs(s[i])
  }

  /** Every character of `s` is whitespace. */
  predicate AllWs(s: string) {
    forall i :: 0 <= i < |s| ==> IsWs(s[i])
  }

  /** Lower-casing of one character (ASCII letters only). */
  function ToLower(c: char): char {
    if 'A' <= c <= 'Z' then (c as int + 32) as char else c
  }

  /** `boost::algorithm::to_lower` on a whole string. */
  function Lower(s: string): (r: string)
    ensures |r| == |s|
    ensures forall i :: 0 <= i < |s| ==> r[i] == ToLower(s[i])
  {
    if s == [] then [] else [ToLower(s[0])] + Lower(s[1..])
  }

  /** Length of the leading run of non-whitespace characters. */
  function RunEnd(s: string): (n: nat)
    ensures n <= |s|
    ensures NoWs(s[..n])
    ensures n < |s| ==> IsWs(s[n])
  {
    if s == [] || IsWs(s[0]) then 0 else 1 + RunEnd(s[1..])
  }

  /** A prefix of a run of non-whitespace is one too. */
  lemma NoWsPrefix(s: string, k: nat)
    requires NoWs(s) && k <= |s|
    ensures NoWs(s[..k])
  {
    forall i | 0 <= i < k ensures !IsWs(s[..k][i]) {
      assert s[..k][i] == s[i];
    }
  }

  /** `s` with its leading whitespace removed. */
  function TrimLeft(s: string): (r: string)
    ensures |r| <= |s| && r == s[|s| - |r|..]
    ensures r == [] || !IsWs(r[0])
    ensures forall i :: 0 <= i < |s| - |r| ==> IsWs(s[i])
  {
    if s != [] && IsWs(s[0]) then
      var r := TrimLeft(s[1..]);
      assert forall i :: 1 <= i < |s| - |r| ==> s[i] == s[1..][i - 1];
      r
    else s
  }

  /** `s` with its trailing whitespace removed. */
  function TrimRight(s: string): (r: string)
    ensures |r| <= |s| && r == s[..|r|]
    ensures r == [] || !IsWs(r[|r| - 1])
    ensures forall i :: |r| <= i < |s| ==> IsWs(s[i])
  {
    if s != [] && IsWs(s[|s| - 1]) then
      var r := TrimRight(s[..|s| - 1]);
      assert forall i :: |r| <= i < |s| - 1 ==> s[i] == s[..|s| - 1][i];
      r
    else s
  }

  /** A string that starts and ends with a non-whitespace character, or is empty. */
  predicate IsTrimmed(s: string) {
    s == [] || (!IsWs(s[0]) && !IsWs(s[|s| - 1]))
  }

  /** `boost::algorithm::trim`: both ends. */
  function Trim(s: string): (r: string)
    ensures IsTrimmed(r)
  {
    TrimRight(TrimLeft(s))
  }

  lemma {:induction false} TrimLeftNoOp(s: string)
    requires s == [] || !IsWs(s[0])
    ensures TrimLeft(s) == s
  {
  }

  lemma {:induction false} TrimRightNoOp(s: string)
    requires s == [] || !IsWs(s[|s| - 1])
    ensures TrimRight(s) == s
  {
  }

  /** Trimming a string that is already trimmed changes nothing. */
  lemma TrimTrimmed(s: string)
    requires IsTrimmed(s)
    ensures Trim(s) == s
  {
    TrimLeftNoOp(s);
    TrimRightNoOp(s);
  }

  /** A run of non-whitespace characters is its own trim. */
  lemma TrimNoWs(s: string)
    requires NoWs(s)
    ensures Trim(s) == s
  {
    TrimTrimmed(s);
  }

  /** Whitespace in front of a trimmed string is removed by trimming. */
  lemma {:induction false} TrimLeadingWs(w: string, v: string)
    requires AllWs(w)
    requires IsTrimmed(v)
    ensures Trim(w + v) == v
  {
    if w == [] {
      assert w + v == v;
      TrimTrimmed(v);
    } else {
      assert (w + v)[1..] == w[1..] + v;
      TrimLeadingWs(w[1..], v);
    }
  }

  /** Leading whitespace is what TrimLeft removes, whatever follows it. */
  lemma {:induction false} TrimLeftSkipsWs(w: string, s: string)
    requires AllWs(w)
    ensures TrimLeft(w + s) == TrimLeft(s)
  {
    if w != [] {
      assert (w + s)[1..] == w[1..] + s;
      TrimLeftSkipsWs(w[1..], s);
    } else {
      assert w + s == s;
    }
  }

  /** The leading run of `a + b` is `a` when `a` has no whitespace and `b` starts with some. */
  lemma {:induction false} RunEndConcat(a: string, b: string)
    requires NoWs(a)
    requires b == [] || IsWs(b[0])
    ensures RunEnd(a + b) == |a|
  {
    if a == [] {
      assert a + b == b;
    } else {
      assert (a + b)[1..] == a[1..] + b;
      RunEndConcat(a[1..], b);
    }
  }
}
