/**
 * The two pieces of text handling the chat client relies on: Python's
 * `str.strip()` (used by the login and send guards) and the order SQLite's
 * default BINARY collation puts on TEXT columns (used by `ORDER BY timestamp`).
 */
module Strings {

  /**
   * The characters for which Python's `str.isspace()` holds; `str.strip()`
   * with no argument removes exactly these from both ends.
   */
  predicate IsSpace(c: char) {
    || ('\t' <= c <= '\r')              // tab, line feed, vertical tab, form feed, carriage return
    || ('\U{1C}' <= c <= ' ')           // the four information separators and the space
    || c == '\U{85}' || c == '\U{A0}' || c == '\U{1680}'
    || ('\U{2000}' <= c <= '\U{200A}')
    || c == '\U{2028}' || c == '\U{2029}' || c == '\U{202F}' || c == '\U{205F}' || c == '\U{3000}'
  }

  /** A text that is empty or made of whitespace only. */
  predicate Blank(s: string) {
    forall i :: 0 <= i < |s| ==> IsSpace(s[i])
  }

  /** How many whitespace characters `s` starts with. */
  function LeadingSpace(s: string): (n: nat)
    ensures n <= |s| && Blank(s[..n])
    ensures n == |s| || !IsSpace(s[n])
    decreases |s|
  {
    if |s| > 0 && IsSpace(s[0]) then
      var n := 1 + LeadingSpace(s[1..]);
      assert s[..n] == [s[0]] + s[1..][..n - 1];
      n
    else
      0
  }

  /** `s` with its trailing whitespace removed. */
  function TrimEnd(s: string): (r: string)
    ensures |r| <= |s| && r == s[..|r|]
    ensures Blank(s[|r|..])
    ensures r == [] || !IsSpace(r[|r| - 1])
    decreases |s|
  {
    if |s| > 0 && IsSpace(s[|s| - 1]) then
      var r := TrimEnd(s[..|s| - 1]);
      assert s[|r|..] == s[..|s| - 1][|r|..] + [s[|s| - 1]];
      r
    else
      s
  }

  /**
   * Python's `s.strip()`: the longest middle part of `s` that neither starts
   * nor ends with whitespace; what it drops on either side is blank. It is
   * empty exactly when `s` is blank.
   */
  function Trim(s: string): (r: string)
    ensures Blank(s) <==> r == []
    ensures r != [] ==> !IsSpace(r[0]) && !IsSpace(r[|r| - 1])
    ensures LeadingSpace(s) + |r| <= |s|
    ensures r == s[LeadingSpace(s)..LeadingSpace(s) + |r|]
    ensures Blank(s[LeadingSpace(s) + |r|..])
  {
    var i := LeadingSpace(s);
    var r := TrimEnd(s[i..]);
    TrimOfBlank(s, i, r);
    assert r != [] ==> r[0] == s[i];
    assert s[i + |r|..] == s[i..][|r|..];
    r
  }

  /** When stripping leaves nothing, everything was whitespace. */
  lemma TrimOfBlank(s: string, i: nat, r: string)
    requires i == LeadingSpace(s) && r == TrimEnd(s[i..])
    ensures r == [] ==> Blank(s)
  {
    if r == [] {
      assert Blank(s[i..][0..]);
      assert s == s[..i] + s[i..];
      BlankConcat(s[..i], s[i..]);
    }
  }

  /** Joining two blank texts gives a blank text. */
  lemma BlankConcat(a: string, b: string)
    requires Blank(a) && Blank(b)
    ensures Blank(a + b)
  {
    forall k | 0 <= k < |a + b|
      ensures IsSpace((a + b)[k])
    {
      if k >= |a| {
        assert (a + b)[k] == b[k - |a|];
      }
    }
  }

  /**
   * `a` sorts no later than `b` under SQLite's BINARY collation: the
   * first differing character decides, and a proper prefix sorts first.
   * Characters compare by code point, which is also the order of their UTF-8
   * encodings, so this is the byte order SQLite uses.
   */
  predicate TimeLe(a: string, b: string)
    decreases |a|
  {
    |a| == 0 || (|b| > 0 && (a[0] < b[0] || (a[0] == b[0] && TimeLe(a[1..], b[1..]))))
  }

  /** Any two texts are comparable. */
  lemma {:induction false} TimeLeTotal(a: string, b: string)
    ensures TimeLe(a, b) || TimeLe(b, a)
    decreases |a|
  {
    if |a| > 0 && |b| > 0 && a[0] == b[0] {
      TimeLeTotal(a[1..], b[1..]);
    }
  }

  /** The order is transitive. */
  lemma {:induction false} TimeLeTrans(a: string, b: string, c: string)
    requires TimeLe(a, b) && TimeLe(b, c)
    ensures TimeLe(a, c)
    decreases |a|
  {
    if |a| > 0 && a[0] == b[0] && b[0] == c[0] {
      TimeLeTrans(a[1..], b[1..], c[1..]);
    }
  }

  /** Two texts that sort no later than each other are equal, so ties are between equal timestamps. */
  lemma {:induction false} TimeLeAntisymmetric(a: string, b: string)
    requires TimeLe(a, b) && TimeLe(b, a)
    ensures a == b
    decreases |a|
  {
    if |a| > 0 {
      TimeLeAntisymmetric(a[1..], b[1..]);
      assert a == [a[0]] + a[1..];
      assert b == [b[0]] + b[1..];
    }
  }

  /** Totality and transitivity, for every pair and triple of texts. */
  lemma TimeLeIsTotalOrder()
    ensures forall a, b :: TimeLe(a, b) || TimeLe(b, a)
    ensures forall a, b, c :: TimeLe(a, b) && TimeLe(b, c) ==> TimeLe(a, c)
  {
    forall a, b
      ensures TimeLe(a, b) || TimeLe(b, a)
    {
      TimeLeTotal(a, b);
    }
    forall a, b, c | TimeLe(a, b) && TimeLe(b, c)
      ensures TimeLe(a, c)
    {
      TimeLeTrans(a, b, c);
    }
  }
}
