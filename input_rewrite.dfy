/**
 * The text rewrites the calculator window applies to a typed line before it
 * evaluates it: strip the surrounding whitespace, turn prime notation into
 * derivative calls, wrap the two sides of the first `=` into `Eq(lhs, rhs)`,
 * and spell out the `dx` / `dy` shorthand.
 */
module InputRewrite {

  /** The characters Python's `str.strip()` removes (those for which `str.isspace()` holds). */
  predicate IsSpace(c: char)
  {
    || c == ' '
    || '\t' <= c <= '\r'
    || '\U{1C}' <= c <= '\U{1F}'
    || c == '\U{85}' || c == '\U{A0}' || c == '\U{1680}'
    || '\U{2000}' <= c <= '\U{200A}'
    || c == '\U{2028}' || c == '\U{2029}' || c == '\U{202F}' || c == '\U{205F}' || c == '\U{3000}'
  }

  /** The two characters the prime pattern accepts: the apostrophe and the prime mark U+2032. */
  predicate IsQuote(c: char)
  {
    c == '\'' || c == '\U{2032}'
  }

  /** `s` holds the character `a` immediately followed by `b` somewhere. */
  predicate HasPair(s: string, a: char, b: char)
  {
    exists i :: 0 <= i < |s| - 1 && s[i] == a && s[i + 1] == b
  }

  /** `s` still holds prime notation: a `y` immediately followed by a quote character. */
  predicate HasQuotedY(s: string)
  {
    HasPair(s, 'y', '\'') || HasPair(s, 'y', '\U{2032}')
  }

  lemma HasPairConcat(u: string, v: string, a: char, b: char)
    ensures HasPair(u + v, a, b) <==>
      || HasPair(u, a, b)
      || HasPair(v, a, b)
      || (u != [] && v != [] && u[|u| - 1] == a && v[0] == b)
  {
    var w := u + v;
    if HasPair(w, a, b) {
      var i :| 0 <= i < |w| - 1 && w[i] == a && w[i + 1] == b;
      if i + 1 < |u| {
        assert u[i] == a && u[i + 1] == b;
      } else if i >= |u| {
        assert v[i - |u|] == a && v[i - |u| + 1] == b;
      }
    }
    if HasPair(u, a, b) {
      var i :| 0 <= i < |u| - 1 && u[i] == a && u[i + 1] == b;
      assert w[i] == a && w[i + 1] == b;
    }
    if HasPair(v, a, b) {
      var i :| 0 <= i < |v| - 1 && v[i] == a && v[i + 1] == b;
      assert w[|u| + i] == a && w[|u| + i + 1] == b;
    }
    if u != [] && v != [] && u[|u| - 1] == a && v[0] == b {
      assert w[|u| - 1] == a && w[|u|] == b;
    }
  }

  lemma HasPairSlice(s: string, i: nat, j: nat, a: char, b: char)
    requires i <= j <= |s|
    requires HasPair(s[i..j], a, b)
    ensures HasPair(s, a, b)
  {
    var k :| 0 <= k < j - i - 1 && s[i..j][k] == a && s[i..j][k + 1] == b;
    assert s[i + k] == a && s[i + k + 1] == b;
  }

  // ---------------------------------------------------------------------------
  // strip()
  // ---------------------------------------------------------------------------

  function TrimStart(s: string): (r: string)
    ensures |r| <= |s| && r == s[|s| - |r|..]
    ensures forall k :: 0 <= k < |s| - |r| ==> IsSpace(s[k])
    ensures r == [] || !IsSpace(r[0])
  {
    if s != [] && IsSpace(s[0]) then TrimStart(s[1..]) else s
  }

  function TrimEnd(s: string): (r: string)
    ensures |r| <= |s| && r == s[..|r|]
    ensures forall k :: |r| <= k < |s| ==> IsSpace(s[k])
    ensures r == [] || !IsSpace(r[|r| - 1])
  {
    if s != [] && IsSpace(s[|s| - 1]) then TrimEnd(s[..|s| - 1]) else s
  }

  /** Python's `str.strip()`: the longest infix that neither starts nor ends with whitespace,
      everything cut off on either side being whitespace. */
  function Strip(s: string): (r: string)
    ensures exists i, j ::
      && 0 <= i <= j <= |s| && r == s[i..j]
      && (forall k :: 0 <= k < i ==> IsSpace(s[k]))
      && (forall k :: j <= k < |s| ==> IsSpace(s[k]))
    ensures r == [] || (!IsSpace(r[0]) && !IsSpace(r[|r| - 1]))
  {
    var t := TrimStart(s);
    var r := TrimEnd(t);
    var i := |s| - |t|;
    assert r == s[i..i + |r|];
    r
  }

  // ---------------------------------------------------------------------------
  // replace_quoted_derivatives: prime notation becomes a derivative call
  // ---------------------------------------------------------------------------

  function DigitChar(d: nat): (c: char)
    requires d < 10
    ensures '0' <= c <= '9'
  {
    ('0' as int + d) as char
  }

  /** Python's `str(n)` for a natural number: decimal digits without leading zeros. */
  function DecimalString(n: nat): (r: string)
    ensures r != []
    ensures forall k :: 0 <= k < |r| ==> '0' <= r[k] <= '9'
    ensures r[0] == '0' ==> n == 0
  {
    if n < 10 then [DigitChar(n)] else DecimalString(n / 10) + [DigitChar(n % 10)]
  }

  /** The number a string of decimal digits denotes. */
  function DecimalValue(r: string): nat
    requires forall k :: 0 <= k < |r| ==> '0' <= r[k] <= '9'
  {
    if r == [] then 0 else 10 * DecimalValue(r[..|r| - 1]) + (r[|r| - 1] as int - '0' as int)
  }

  /** The count written into a derivative call reads back as the number of primes. */
  lemma {:induction false} DecimalRoundTrip(n: nat)
    ensures DecimalValue(DecimalString(n)) == n
  {
    if n >= 10 {
      var s := DecimalString(n / 10);
      DecimalRoundTrip(n / 10);
      assert (s + [DigitChar(n % 10)])[..|s|] == s;
    }
  }

  /** Length of the maximal run of quote characters at the start of `s` (the greedy `+`). */
  function QuoteRun(s: string): (n: nat)
    ensures n <= |s|
    ensures forall k :: 0 <= k < n ==> IsQuote(s[k])
    ensures n == |s| || !IsQuote(s[n])
  {
    if s != [] && IsQuote(s[0]) then 1 + QuoteRun(s[1..]) else 0
  }

  /** The replacement text for a `y` followed by `k` quote characters. */
  function DerivativeCall(k: nat): string
  {
    "y.diff(x, " + DecimalString(k) + ")"
  }

  /** Scans left to right; at each `y` followed by at least one quote the whole run of quotes
      is consumed and replaced, any other character is copied. */
  function ReplaceQuotedDerivatives(s: string): string
    decreases |s|
  {
    if s == [] then []
    else if s[0] == 'y' && QuoteRun(s[1..]) > 0 then
      DerivativeCall(QuoteRun(s[1..])) + ReplaceQuotedDerivatives(s[1 + QuoteRun(s[1..])..])
    else [s[0]] + ReplaceQuotedDerivatives(s[1..])
  }

  lemma {:induction false} QuoteRunOf(q: string, rest: string)
    requires forall k :: 0 <= k < |q| ==> IsQuote(q[k])
    requires rest == [] || !IsQuote(rest[0])
    ensures QuoteRun(q + rest) == |q|
  {
    if q != [] {
      assert (q + rest)[1..] == q[1..] + rest;
      QuoteRunOf(q[1..], rest);
    }
  }

  /** Greedy matching: a `y` followed by a maximal run of k >= 1 quotes becomes exactly one
      call `y.diff(x, k)`, so `y''` is one second derivative and not two first ones. */
  lemma GreedyPrimes(q: string, rest: string)
    requires |q| >= 1
    requires forall k :: 0 <= k < |q| ==> IsQuote(q[k])
    requires rest == [] || !IsQuote(rest[0])
    ensures ReplaceQuotedDerivatives("y" + q + rest)
         == "y.diff(x, " + DecimalString(|q|) + ")" + ReplaceQuotedDerivatives(rest)
  {
    var s := "y" + q + rest;
    assert s[1..] == q + rest;
    QuoteRunOf(q, rest);
    assert s[1 + |q|..] == rest;
    assert ReplaceQuotedDerivatives(s) == DerivativeCall(|q|) + ReplaceQuotedDerivatives(rest);
  }

  lemma ReplaceQuotedDerivativesHead(s: string)
    requires s != []
    ensures ReplaceQuotedDerivatives(s) != [] && ReplaceQuotedDerivatives(s)[0] == s[0]
  {
  }

  /** A line without prime notation goes through the prime rewrite unchanged. */
  lemma {:induction false} NoPrimesUnchanged(s: string)
    requires !HasQuotedY(s)
    ensures ReplaceQuotedDerivatives(s) == s
    decreases |s|
  {
    if s != [] {
      NoPrimesUnchanged(s[1..]);
      assert s == [s[0]] + s[1..];
    }
  }

  lemma DerivativeCallHasNoQuotes(k: nat, a: char, b: char)
    requires a == 'y' && IsQuote(b)
    ensures !HasPair(DerivativeCall(k), a, b)
    ensures DerivativeCall(k)[|DerivativeCall(k)| - 1] == ')'
  {
    var d := DecimalString(k);
    HasPairConcat("y.diff(x, ", d, a, b);
    HasPairConcat("y.diff(x, " + d, ")", a, b);
  }

  lemma {:induction false} NoPairAfterPrimeRewrite(s: string, b: char)
    requires IsQuote(b)
    ensures !HasPair(ReplaceQuotedDerivatives(s), 'y', b)
    decreases |s|
  {
    if s != [] {
      if s[0] == 'y' && QuoteRun(s[1..]) > 0 {
        var k := QuoteRun(s[1..]);
        DerivativeCallHasNoQuotes(k, 'y', b);
        NoPairAfterPrimeRewrite(s[1 + k..], b);
        HasPairConcat(DerivativeCall(k), ReplaceQuotedDerivatives(s[1 + k..]), 'y', b);
      } else {
        var tail := ReplaceQuotedDerivatives(s[1..]);
        NoPairAfterPrimeRewrite(s[1..], b);
        HasPairConcat([s[0]], tail, 'y', b);
        if |s| > 1 {
          ReplaceQuotedDerivativesHead(s[1..]);
          assert tail[0] == s[1];
          if s[0] == 'y' && tail[0] == b {
            assert false;
          }
        }
      }
    }
  }

  /** After the rewrite no prime notation is left: every quote run after a `y` was consumed. */
  lemma NoPrimesRemain(s: string)
    ensures !HasQuotedY(ReplaceQuotedDerivatives(s))
  {
    NoPairAfterPrimeRewrite(s, '\'');
    NoPairAfterPrimeRewrite(s, '\U{2032}');
  }

  /** Running the prime rewrite twice gives what running it once gives. */
  lemma PrimeRewriteIdempotent(s: string)
    ensures ReplaceQuotedDerivatives(ReplaceQuotedDerivatives(s)) == ReplaceQuotedDerivatives(s)
  {
    NoPrimesRemain(s);
    NoPrimesUnchanged(ReplaceQuotedDerivatives(s));
  }

  // ---------------------------------------------------------------------------
  // replace_equal_sign: the text around the first `=` becomes the two arguments of `Eq`
  // ---------------------------------------------------------------------------

  /** Python's `str.find` for one character: the first index holding `c`, or -1. */
  function Find(s: string, c: char): (i: int)
    ensures -1 <= i < |s|
    ensures i == -1 <==> c !in s
    ensures 0 <= i ==> s[i] == c && c !in s[..i]
  {
    if s == [] then -1
    else if s[0] == c then 0
    else
      var j := Find(s[1..], c);
      assert s == [s[0]] + s[1..];
      if j == -1 then -1
      else
        assert s[..j + 1] == [s[0]] + s[1..][..j];
        j + 1
  }

  /** Python's clamping of a slice bound `i` for a string of length `n`
      (a negative bound counts from the end). */
  function SliceBound(n: nat, i: int): (k: nat)
    ensures k <= n
    ensures 0 <= i <= n ==> k == i
    ensures i < 0 && 0 <= n + i ==> k == n + i
    ensures n < i ==> k == n
    ensures n + i < 0 ==> k == 0
  {
    if i < 0 then (var m := n + i; if m < 0 then 0 else m)
    else if i > n then n
    else i
  }

  /** Python's `s[:i]`. */
  function SliceTo(s: string, i: int): string
  {
    s[..SliceBound(|s|, i)]
  }

  /** Python's `s[i:]`. */
  function SliceFrom(s: string, i: int): string
  {
    s[SliceBound(|s|, i)..]
  }

  function ReplaceEqualSign(s: string): (r: string)
    ensures |r| >= 6 && r[..3] == "Eq(" && r[|r| - 1] == ')'
  {
    var idx := Find(s, '=');
    "Eq(" + SliceTo(s, idx) + ", " + SliceFrom(s, idx + 1) + ")"
  }

  /** With a first `=` at index i, the text splits there: the left side is everything before
      it and the right side everything after, later `=` characters included; five characters
      are added in all. */
  lemma EqualSignSplits(s: string, i: nat)
    requires i < |s| && s[i] == '=' && '=' !in s[..i]
    ensures ReplaceEqualSign(s) == "Eq(" + s[..i] + ", " + s[i + 1..] + ")"
    ensures |ReplaceEqualSign(s)| == |s| + 5
  {
  }

  /** With no `=` at all, `find` gives -1: the left side loses the last character and the right
      side is the whole text. */
  lemma NoEqualSign(s: string)
    requires '=' !in s
    ensures s != [] ==> ReplaceEqualSign(s) == "Eq(" + s[..|s| - 1] + ", " + s + ")"
    ensures s != [] ==> |ReplaceEqualSign(s)| == 2 * |s| + 5
    ensures s == [] ==> ReplaceEqualSign(s) == "Eq(, )"
  {
  }

  /** The wrapper joins no two characters of the line, so a pair of characters whose first
      is not one of `Eq(, ` and whose second is not one of `Eq(, )` stays absent. */
  lemma EqualSignKeepsNoPair(s: string, a: char, b: char)
    requires !HasPair(s, a, b)
    requires a !in "Eq(, " && b !in "Eq(, )"
    ensures !HasPair(ReplaceEqualSign(s), a, b)
  {
    var idx := Find(s, '=');
    var lhs, rhs := SliceTo(s, idx), SliceFrom(s, idx + 1);
    HasPairConcat("Eq(", lhs, a, b);
    HasPairConcat("Eq(" + lhs, ", ", a, b);
    HasPairConcat("Eq(" + lhs + ", ", rhs, a, b);
    HasPairConcat("Eq(" + lhs + ", " + rhs, ")", a, b);
  }

  // ---------------------------------------------------------------------------
  // str.replace(pat, rep)
  // ---------------------------------------------------------------------------

  /** Python's `str.replace`: every non-overlapping occurrence of `pat`, scanned from the left,
      becomes `rep`, with no regard for identifier boundaries. */
  function ReplaceAll(s: string, pat: string, rep: string): string
    requires pat != []
    decreases |s|
  {
    if |s| < |pat| then s
    else if s[..|pat|] == pat then rep + ReplaceAll(s[|pat|..], pat, rep)
    else [s[0]] + ReplaceAll(s[1..], pat, rep)
  }

  lemma {:induction false} ReplaceAllEnds(s: string, pat: string, rep: string)
    requires pat != [] && rep != [] && s != []
    ensures var r := ReplaceAll(s, pat, rep);
      && r != []
      && (r[0] == s[0] || r[0] == rep[0])
      && (r[|r| - 1] == s[|s| - 1] || r[|r| - 1] == rep[|rep| - 1])
    decreases |s|
  {
    if |s| >= |pat| {
      var r := ReplaceAll(s, pat, rep);
      if s[..|pat|] == pat {
        var rest := s[|pat|..];
        assert r == rep + ReplaceAll(rest, pat, rep);
        if rest != [] {
          ReplaceAllEnds(rest, pat, rep);
          assert rest[|rest| - 1] == s[|s| - 1];
        } else {
          assert ReplaceAll(rest, pat, rep) == [];
        }
      } else {
        var rest := s[1..];
        assert r == [s[0]] + ReplaceAll(rest, pat, rep);
        if rest != [] {
          ReplaceAllEnds(rest, pat, rep);
          assert rest[|rest| - 1] == s[|s| - 1];
        } else {
          assert ReplaceAll(rest, pat, rep) == [];
        }
      }
    }
  }

  /** A prefix none of whose characters can start the pattern is copied unchanged. */
  lemma {:induction false} ReplaceAllPrefix(p: string, s: string, pat: string, rep: string)
    requires pat != []
    requires forall k :: 0 <= k < |p| ==> p[k] != pat[0]
    ensures ReplaceAll(p + s, pat, rep) == p + ReplaceAll(s, pat, rep)
    decreases |p|
  {
    if p != [] {
      var w := p + s;
      assert w[0] == p[0];
      if |w| >= |pat| {
        assert w[..|pat|][0] != pat[0];
        assert w[1..] == p[1..] + s;
        ReplaceAllPrefix(p[1..], s, pat, rep);
        calc {
          ReplaceAll(w, pat, rep);
          [w[0]] + ReplaceAll(w[1..], pat, rep);
          [p[0]] + (p[1..] + ReplaceAll(s, pat, rep));
          { assert p == [p[0]] + p[1..]; }
          p + ReplaceAll(s, pat, rep);
        }
      } else {
        assert ReplaceAll(s, pat, rep) == s;
      }
    } else {
      assert p + s == s;
    }
  }

  /** Replacing with a text that cannot help form the pair `ab` leaves the pair absent: either
      it was absent before, or it is the pattern itself and every occurrence was replaced. */
  lemma {:induction false} ReplaceAllNoPair(s: string, pat: string, rep: string, a: char, b: char)
    requires pat != [] && rep != []
    requires !HasPair(rep, a, b) && rep[0] != b && rep[|rep| - 1] != a
    requires pat == [a, b] || !HasPair(s, a, b)
    ensures !HasPair(ReplaceAll(s, pat, rep), a, b)
    decreases |s|
  {
    if |s| < |pat| {
    } else if s[..|pat|] == pat {
      var rest := s[|pat|..];
      assert rest == s[|pat|..|s|];
      if HasPair(rest, a, b) { HasPairSlice(s, |pat|, |s|, a, b); }
      ReplaceAllNoPair(rest, pat, rep, a, b);
      HasPairConcat(rep, ReplaceAll(rest, pat, rep), a, b);
    } else {
      var rest := s[1..];
      assert rest == s[1..|s|];
      if HasPair(rest, a, b) { HasPairSlice(s, 1, |s|, a, b); }
      ReplaceAllNoPair(rest, pat, rep, a, b);
      var tail := ReplaceAll(rest, pat, rep);
      HasPairConcat([s[0]], tail, a, b);
      if rest != [] {
        ReplaceAllEnds(rest, pat, rep);
      }
    }
  }

  // ---------------------------------------------------------------------------
  // The rewrite sequence of on_enter
  // ---------------------------------------------------------------------------

  /** The text handed to the evaluator for a typed line, in the order the window applies the
      rewrites: strip, primes, equal sign, then `dx`, then `dy`. */
  function Preprocess(line: string): string
  {
    ExpandShorthand(ReplaceEqualSign(ReplaceQuotedDerivatives(Strip(line))))
  }

  /** Spells out the shorthand: every `dx` becomes `diff(x)`, then every `dy` becomes `diff(y)`. */
  function ExpandShorthand(t: string): string
  {
    ReplaceAll(ReplaceAll(t, "dx", "diff(x)"), "dy", "diff(y)")
  }

  lemma PreprocessFrame(t: string)
    requires |t| > 3 && t[..3] == "Eq(" && t[|t| - 1] == ')'
    ensures var r := ExpandShorthand(t);
      |r| > 3 && r[..3] == "Eq(" && r[|r| - 1] == ')'
  {
    var body := t[3..];
    assert t == "Eq(" + body;
    ReplaceAllPrefix("Eq(", body, "dx", "diff(x)");
    var u := ReplaceAll(body, "dx", "diff(x)");
    ReplaceAllEnds(body, "dx", "diff(x)");
    ReplaceAllPrefix("Eq(", u, "dy", "diff(y)");
    ReplaceAllEnds(u, "dy", "diff(y)");
  }

  lemma ShorthandKeepsNoPrimes(t: string, b: char)
    requires IsQuote(b) && !HasPair(t, 'y', b)
    ensures !HasPair(ExpandShorthand(t), 'y', b)
  {
    ReplaceAllNoPair(t, "dx", "diff(x)", 'y', b);
    ReplaceAllNoPair(ReplaceAll(t, "dx", "diff(x)"), "dy", "diff(y)", 'y', b);
  }

  lemma ShorthandRemoved(t: string)
    ensures var r := ExpandShorthand(t);
      !HasPair(r, 'd', 'x') && !HasPair(r, 'd', 'y')
  {
    var u := ReplaceAll(t, "dx", "diff(x)");
    ReplaceAllNoPair(t, "dx", "diff(x)", 'd', 'x');
    ReplaceAllNoPair(u, "dy", "diff(y)", 'd', 'x');
    ReplaceAllNoPair(u, "dy", "diff(y)", 'd', 'y');
  }

  /** Wrapping a text in `Eq(..., ...)` and expanding the shorthand gives an `Eq(...)` call. */
  lemma ExpandedFrame(q: string)
    ensures var r := ExpandShorthand(ReplaceEqualSign(q));
      |r| > 3 && r[..3] == "Eq(" && r[|r| - 1] == ')'
  {
    PreprocessFrame(ReplaceEqualSign(q));
  }

  /** After the expansion no `dx` and no `dy` is left. */
  lemma ExpandedNoShorthand(q: string)
    ensures var r := ExpandShorthand(ReplaceEqualSign(q));
      !HasPair(r, 'd', 'x') && !HasPair(r, 'd', 'y')
  {
    ShorthandRemoved(ReplaceEqualSign(q));
  }

  /** Wrapping and expanding never puts a quote mark after a `y`. */
  lemma ExpandedNoPair(q: string, b: char)
    requires IsQuote(b) && !HasPair(q, 'y', b)
    ensures !HasPair(ExpandShorthand(ReplaceEqualSign(q)), 'y', b)
  {
    EqualSignKeepsNoPair(q, 'y', b);
    ShorthandKeepsNoPrimes(ReplaceEqualSign(q), b);
  }

  /** Wrapping and expanding never introduces prime notation. */
  lemma ExpandedNoPrimes(q: string)
    requires !HasQuotedY(q)
    ensures !HasQuotedY(ExpandShorthand(ReplaceEqualSign(q)))
  {
    ExpandedNoPair(q, '\'');
    ExpandedNoPair(q, '\U{2032}');
  }

  /** The evaluator always receives an `Eq(...)` call with no `dx`, no `dy` and no prime
      notation left anywhere, identifiers included. */
  lemma PreprocessShape(line: string)
    ensures var r := Preprocess(line);
      && |r| > 3 && r[..3] == "Eq(" && r[|r| - 1] == ')'
      && !HasPair(r, 'd', 'x') && !HasPair(r, 'd', 'y') && !HasQuotedY(r)
  {
    var q := ReplaceQuotedDerivatives(Strip(line));
    NoPrimesRemain(Strip(line));
    ExpandedFrame(q);
    ExpandedNoShorthand(q);
    ExpandedNoPrimes(q);
  }
}
