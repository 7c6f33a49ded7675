/**
 * Word counting for scene content: Python's `str.split()` with no separator, which splits
 * on runs of whitespace and drops the empty pieces, and the decimal rendering of a
 * position used by the default scene title.
 */
module Words {
  import opened Values

  /** The characters `str.isspace()` accepts, which are the separators of `str.split()`. */
  predicate IsSpace(c: char) {
    || ('\t' <= c <= '\r')
    || ('\U{1C}' <= c <= ' ')
    || c == '\U{85}' || c == '\U{A0}' || c == '\U{1680}'
    || ('\U{2000}' <= c <= '\U{200A}')
    || c == '\U{2028}' || c == '\U{2029}' || c == '\U{202F}' || c == '\U{205F}' || c == '\U{3000}'
  }

  predicate NoSpace(w: string) {
    forall k :: 0 <= k < |w| ==> !IsSpace(w[k])
  }

  predicate AllSpace(s: string) {
    forall k :: 0 <= k < |s| ==> IsSpace(s[k])
  }

  /** The pending token, if one has been started. */
  function Flush(word: string): seq<string> {
    if word == [] then [] else [word]
  }

  /**
   * The tokens of `s`, given that `word` is the token read so far (no whitespace has
   * been seen since it began). Every token is non-empty and holds no whitespace.
   */
  function Scan(s: string, word: string): (ts: seq<string>)
    requires NoSpace(word)
    ensures forall k :: 0 <= k < |ts| ==> ts[k] != [] && NoSpace(ts[k])
    decreases |s|
  {
    if s == [] then Flush(word)
    else if IsSpace(s[0]) then Flush(word) + Scan(s[1..], [])
    else Scan(s[1..], word + [s[0]])
  }

  /** `s.split()`: the maximal whitespace-free runs of `s`, in order. */
  function Tokens(s: string): (ts: seq<string>)
    ensures forall k :: 0 <= k < |ts| ==> ts[k] != [] && NoSpace(ts[k])
  {
    Scan(s, [])
  }

  /**
   * A scene's word count from its content: `len(content.split()) if content else 0`.
   * The guard only matters for absent content: empty content splits into no words anyway.
   */
  function ContentWords(content: Option<string>): (n: nat)
    ensures content.None? ==> n == 0
    ensures content.Some? ==> n == |Tokens(content.value)|
  {
    match content
    case None => 0
    case Some(s) => if s == [] then 0 else |Tokens(s)|
  }

  function Concat(ts: seq<string>): string {
    if ts == [] then [] else ts[0] + Concat(ts[1..])
  }

  /** `s` with every whitespace character removed. */
  function NonSpace(s: string): string {
    if s == [] then [] else (if IsSpace(s[0]) then [] else [s[0]]) + NonSpace(s[1..])
  }

  lemma {:induction false} ConcatAppend(a: seq<string>, b: seq<string>)
    ensures Concat(a + b) == Concat(a) + Concat(b)
    decreases |a|
  {
    if a != [] {
      assert (a + b)[1..] == a[1..] + b;
      ConcatAppend(a[1..], b);
    } else {
      assert a + b == b;
    }
  }

  lemma {:induction false} ScanAtSpace(a: string, c: char, b: string, w: string)
    requires IsSpace(c) && NoSpace(w)
    ensures Scan(a + [c] + b, w) == Scan(a, w) + Scan(b, [])
    decreases |a|
  {
    var s := a + [c] + b;
    if a == [] {
      assert s[0] == c && s[1..] == b;
    } else {
      assert s[0] == a[0] && s[1..] == a[1..] + [c] + b;
      if IsSpace(a[0]) {
        ScanAtSpace(a[1..], c, b, []);
      } else {
        ScanAtSpace(a[1..], c, b, w + [a[0]]);
      }
    }
  }

  /** Splitting at a whitespace character: the tokens of both sides, concatenated. */
  lemma TokensAtSpace(a: string, c: char, b: string)
    requires IsSpace(c)
    ensures Tokens(a + [c] + b) == Tokens(a) + Tokens(b)
  {
    ScanAtSpace(a, c, b, []);
  }

  lemma {:induction false} ScanWord(s: string, w: string)
    requires NoSpace(s) && NoSpace(w)
    ensures Scan(s, w) == Flush(w + s)
    decreases |s|
  {
    if s == [] {
      assert w + s == w;
    } else {
      assert w + [s[0]] + s[1..] == w + s;
      ScanWord(s[1..], w + [s[0]]);
    }
  }

  /** A non-empty run without whitespace is exactly one token. */
  lemma TokensOfWord(w: string)
    requires w != [] && NoSpace(w)
    ensures Tokens(w) == [w]
  {
    ScanWord(w, []);
    assert [] + w == w;
  }

  lemma {:induction false} TokensOfBlank(s: string)
    requires AllSpace(s)
    ensures Tokens(s) == []
    decreases |s|
  {
    if s != [] {
      TokensOfBlank(s[1..]);
    }
  }

  lemma {:induction false} ScanKeepsText(s: string, w: string)
    requires NoSpace(w)
    ensures Concat(Scan(s, w)) == w + NonSpace(s)
    decreases |s|
  {
    if s == [] {
      assert w + NonSpace(s) == w;
    } else if IsSpace(s[0]) {
      ConcatAppend(Flush(w), Scan(s[1..], []));
      ScanKeepsText(s[1..], []);
      assert Concat(Flush(w)) == w by {
        if w != [] { assert [w][1..] == []; }
      }
      assert NonSpace(s) == NonSpace(s[1..]) by {
        assert [] + NonSpace(s[1..]) == NonSpace(s[1..]);
      }
    } else {
      ScanKeepsText(s[1..], w + [s[0]]);
      assert NonSpace(s) == [s[0]] + NonSpace(s[1..]);
      assert w + [s[0]] + NonSpace(s[1..]) == w + ([s[0]] + NonSpace(s[1..]));
    }
  }

  /** Splitting loses nothing but whitespace: the tokens, glued together, are the text without its whitespace. */
  lemma TokensKeepText(s: string)
    ensures Concat(Tokens(s)) == NonSpace(s)
  {
    ScanKeepsText(s, []);
    assert [] + NonSpace(s) == NonSpace(s);
  }

  /** Whitespace before or after a text adds no token. */
  lemma BlankEdges(g: string, s: string)
    requires AllSpace(g)
    ensures Tokens(g + s) == Tokens(s)
    ensures Tokens(s + g) == Tokens(s)
  {
    if g != [] {
      var n := |g| - 1;
      assert g + s == g[..n] + [g[n]] + s;
      TokensAtSpace(g[..n], g[n], s);
      TokensOfBlank(g[..n]);
      assert s + g == s + [g[0]] + g[1..];
      TokensAtSpace(s, g[0], g[1..]);
      TokensOfBlank(g[1..]);
    } else {
      assert g + s == s && s + g == s;
    }
  }

  /**
   * Two words separated by any non-empty run of whitespace, with any whitespace around
   * them, count as exactly two tokens ("  Hello   world  " splits into two).
   */
  lemma TwoWords(g0: string, w1: string, g1: string, w2: string, g2: string)
    requires AllSpace(g0) && AllSpace(g1) && AllSpace(g2) && g1 != []
    requires w1 != [] && NoSpace(w1) && w2 != [] && NoSpace(w2)
    ensures Tokens(g0 + w1 + g1 + w2 + g2) == [w1, w2]
  {
    var t := w1 + g1 + w2;
    assert g0 + w1 + g1 + w2 + g2 == g0 + (t + g2);
    BlankEdges(g0, t + g2);
    BlankEdges(g2, t);
    assert t == w1 + [g1[0]] + (g1[1..] + w2);
    TokensAtSpace(w1, g1[0], g1[1..] + w2);
    TokensOfWord(w1);
    BlankEdges(g1[1..], w2);
    TokensOfWord(w2);
  }

}

/** Decimal rendering of a position, as Python's `str(n)` / f-string gives it. */
module Decimal {

  function Digit(d: nat): (c: char)
    requires d < 10
    ensures '0' <= c <= '9' && c as int - '0' as int == d
  {
    ('0' as int + d) as char
  }

  predicate IsDigits(s: string) {
    forall k :: 0 <= k < |s| ==> '0' <= s[k] <= '9'
  }

  /** `str(n)`: at least one digit, and a leading zero only for zero itself. */
  function DecimalString(n: nat): (s: string)
    ensures |s| >= 1 && IsDigits(s)
    ensures s[0] == '0' <==> n == 0
  {
    if n < 10 then [Digit(n)] else DecimalString(n / 10) + [Digit(n % 10)]
  }

  /** The number a string of digits denotes. */
  function DecimalValue(s: string): nat
    requires IsDigits(s)
  {
    if s == [] then 0 else DecimalValue(s[..|s| - 1]) * 10 + (s[|s| - 1] as int - '0' as int)
  }

  /** Reading back the rendering of n gives n. */
  lemma {:induction false} DecimalRoundTrip(n: nat)
    ensures DecimalValue(DecimalString(n)) == n
  {
    if n >= 10 {
      var s := DecimalString(n);
      assert s[..|s| - 1] == DecimalString(n / 10);
      DecimalRoundTrip(n / 10);
    }
  }

  /** A digit string that does not start with zero denotes a positive number. */
  lemma {:induction false} LeadingDigitPositive(s: string)
    requires |s| >= 1 && IsDigits(s) && s[0] != '0'
    ensures DecimalValue(s) >= 1
    decreases |s|
  {
    if |s| > 1 {
      LeadingDigitPositive(s[..|s| - 1]);
    }
  }

  /**
   * The rendering is the only way to write a positive number in digits without a leading
   * zero: a string of that shape that reads back as n is `str(n)`.
   */
  lemma {:induction false} CanonicalDecimal(s: string, n: nat)
    requires n >= 1 && |s| >= 1 && IsDigits(s) && s[0] != '0' && DecimalValue(s) == n
    ensures s == DecimalString(n)
    decreases |s|
  {
    var last := |s| - 1;
    if last == 0 {
      assert s == [Digit(n)];
    } else {
      var prefix := s[..last];
      var v, d := DecimalValue(prefix), s[last] as int - '0' as int;
      LeadingDigitPositive(prefix);
      CanonicalDecimal(prefix, v);
      RenderLastDigit(n, v, d);
      assert Digit(d) == s[last];
      assert s == prefix + [s[last]];
    }
  }

  /** The rendering of ten times v plus a digit d is the rendering of v followed by d. */
  lemma RenderLastDigit(n: nat, v: nat, d: int)
    requires v >= 1 && 0 <= d < 10 && n == v * 10 + d
    ensures DecimalString(n) == DecimalString(v) + [Digit(d)]
  {
    assert n / 10 == v && n % 10 == d;
  }
}
