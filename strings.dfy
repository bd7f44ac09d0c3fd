/**
 * The JavaScript string primitives the viewer relies on: `String.prototype.trim`,
 * `String.prototype.split` and `Array.prototype.join` with a one-character
 * separator, and the decimal rendering of a counter in a template literal.
 */
module Strings {
  import opened Sequences

  /** The characters `trim` removes: ECMAScript's WhiteSpace and LineTerminator code points. */
  predicate IsWhitespace(c: char) {
    c == '\t' || c == '\n' || c == '\U{000B}' || c == '\U{000C}' || c == '\r' || c == ' '
    || c == '\U{00A0}' || c == '\U{1680}' || ('\U{2000}' <= c <= '\U{200A}')
    || c == '\U{2028}' || c == '\U{2029}' || c == '\U{202F}' || c == '\U{205F}'
    || c == '\U{3000}' || c == '\U{FEFF}'
  }

  /** Neither starts nor ends with whitespace. */
  predicate IsTrimmed(s: string) {
    s == [] || (!IsWhitespace(s[0]) && !IsWhitespace(s[|s| - 1]))
  }

  function TrimStart(s: string): (r: string)
    ensures |r| <= |s| && r == s[|s| - |r|..]
    ensures forall i :: 0 <= i < |s| - |r| ==> IsWhitespace(s[i])
    ensures r == [] || !IsWhitespace(r[0])
    decreases |s|
  {
    if s != [] && IsWhitespace(s[0]) then TrimStart(s[1..]) else s
  }

  function TrimEnd(s: string): (r: string)
    ensures |r| <= |s| && r == s[..|r|]
    ensures forall i :: |r| <= i < |s| ==> IsWhitespace(s[i])
    ensures r == [] || !IsWhitespace(r[|r| - 1])
    decreases |s|
  {
    if s != [] && IsWhitespace(s[|s| - 1]) then TrimEnd(s[..|s| - 1]) else s
  }

  /** `r` sits at offset `lo` of `s` with only whitespace before and after it. */
  predicate IsCoreAt(s: string, r: string, lo: int) {
    0 <= lo <= |s| - |r| && r == s[lo..lo + |r|]
    && (forall i :: 0 <= i < lo ==> IsWhitespace(s[i]))
    && (forall i :: lo + |r| <= i < |s| ==> IsWhitespace(s[i]))
  }

  /**
   * `s.trim()`: the slice of `s` left once every leading and trailing
   * whitespace character is removed.
   */
  function Trim(s: string): (r: string)
    ensures IsTrimmed(r)
    ensures IsCoreAt(s, r, |s| - |TrimStart(s)|)
    ensures IsTrimmed(s) ==> r == s
    ensures forall c :: c in r ==> c in s
    ensures r == [] <==> forall c :: c in s ==> IsWhitespace(c)
  {
    TrimmedCore(s);
    TrimEnd(TrimStart(s))
  }

  /** What `Trim` promises, proved of its body. */
  lemma TrimmedCore(s: string)
    ensures var r := TrimEnd(TrimStart(s));
            IsTrimmed(r)
            && IsCoreAt(s, r, |s| - |TrimStart(s)|)
            && (IsTrimmed(s) ==> r == s)
            && (forall c :: c in r ==> c in s)
            && (r == [] <==> forall c :: c in s ==> IsWhitespace(c))
  {
    var t := TrimStart(s);
    var r := TrimEnd(t);
    var lo := |s| - |t|;
    CoreOfTrimmedEnds(s, lo, t, r);
    CoreChars(s, r, lo);
    if r != [] {
      assert r[0] in s && !IsWhitespace(r[0]);
    }
  }

  /**
   * `t` is what is left of `s` after whitespace up to `lo`, and `r` what is left
   * of `t` before trailing whitespace: `r` is a trimmed core of `s` at `lo`.
   */
  lemma CoreOfTrimmedEnds(s: string, lo: nat, t: string, r: string)
    requires lo <= |s| && t == s[lo..] && forall i :: 0 <= i < lo ==> IsWhitespace(s[i])
    requires t == [] || !IsWhitespace(t[0])
    requires |r| <= |t| && r == t[..|r|] && forall i :: |r| <= i < |t| ==> IsWhitespace(t[i])
    requires r == [] || !IsWhitespace(r[|r| - 1])
    ensures IsTrimmed(r) && IsCoreAt(s, r, lo)
  {
    assert r != [] ==> r[0] == t[0];
    assert r == s[lo..lo + |r|];
    forall i | lo + |r| <= i < |s| ensures IsWhitespace(s[i]) {
      assert s[i] == t[i - lo];
    }
  }

  /** A core of `s` holds only characters of `s`; an empty one leaves only whitespace in `s`. */
  lemma CoreChars(s: string, r: string, lo: int)
    requires IsCoreAt(s, r, lo)
    ensures forall c :: c in r ==> c in s
    ensures r == [] ==> forall c :: c in s ==> IsWhitespace(c)
  {
    forall c | c in r ensures c in s {
      var i :| 0 <= i < |r| && r[i] == c;
      assert s[lo + i] == c;
    }
    if r == [] {
      forall c | c in s ensures IsWhitespace(c) {
        var i :| 0 <= i < |s| && s[i] == c;
      }
    }
  }

  /** Trimming a trimmed, non-empty core wrapped in whitespace gives the core back. */
  lemma TrimAround(before: string, core: string, after: string)
    requires forall i :: 0 <= i < |before| ==> IsWhitespace(before[i])
    requires forall i :: 0 <= i < |after| ==> IsWhitespace(after[i])
    requires core != [] && IsTrimmed(core)
    ensures Trim(before + core + after) == core
  {
    AppendAssoc(before, core, after);
    TrimStartPast(before, core + after);
    TrimEndBefore(core, after);
  }

  /** `TrimStart` skips a whitespace prefix and stops at the first other character. */
  lemma {:induction false} TrimStartPast(w: string, s: string)
    requires forall i :: 0 <= i < |w| ==> IsWhitespace(w[i])
    requires s == [] || !IsWhitespace(s[0])
    ensures TrimStart(w + s) == s
    decreases |w|
  {
    if w == [] {
      AppendEmpty(s);
    } else {
      assert (w + s)[0] == w[0];
      assert (w + s)[1..] == w[1..] + s;
      TrimStartPast(w[1..], s);
    }
  }

  /** `TrimEnd` skips a whitespace suffix and stops at the last other character. */
  lemma {:induction false} TrimEndBefore(s: string, w: string)
    requires forall i :: 0 <= i < |w| ==> IsWhitespace(w[i])
    requires s == [] || !IsWhitespace(s[|s| - 1])
    ensures TrimEnd(s + w) == s
    decreases |w|
  {
    if w == [] {
      AppendEmpty(s);
    } else {
      DropLastOfAppend(s, w);
      TrimEndBefore(s, w[..|w| - 1]);
    }
  }

  /** `"a ".trim()` is `"a"`. */
  lemma TrimTrailingExample()
    ensures Trim("a ") == "a"
  {
    assert "a " == [] + "a" + " ";
    TrimAround([], "a", " ");
  }

  /** `" b".trim()` is `"b"`. */
  lemma TrimLeadingExample()
    ensures Trim(" b") == "b"
  {
    assert " b" == " " + "b" + [];
    TrimAround(" ", "b", []);
  }

  /** `"c".trim()` is `"c"`. */
  lemma TrimBareExample()
    ensures Trim("c") == "c"
  {
    assert IsTrimmed("c");
  }

  /** `s.split(sep)`: the pieces between occurrences of `sep`, empty pieces included. */
  function SplitOn(s: string, sep: char): (pieces: seq<string>)
    ensures |pieces| >= 1
    ensures forall p :: p in pieces ==> sep !in p
    decreases |s|
  {
    if s == [] then [[]]
    else
      var rest := SplitOn(s[1..], sep);
      if s[0] == sep then [[]] + rest else [[s[0]] + rest[0]] + rest[1..]
  }

  /** A split has one piece more than the string has separators. */
  lemma {:induction false} SplitCount(s: string, sep: char)
    ensures |SplitOn(s, sep)| == 1 + multiset(s)[sep]
    decreases |s|
  {
    if s != [] {
      SplitCount(s[1..], sep);
      HeadTail(s);
      assert multiset(s) == multiset([s[0]]) + multiset(s[1..]);
    }
  }

  /** `parts.join(sep)`. */
  function Join(parts: seq<string>, sep: char): string
    decreases |parts|
  {
    if parts == [] then []
    else if |parts| == 1 then parts[0]
    else parts[0] + [sep] + Join(parts[1..], sep)
  }

  /** Joining the pieces of a split gives back the string. */
  lemma {:induction false} JoinSplit(s: string, sep: char)
    ensures Join(SplitOn(s, sep), sep) == s
    decreases |s|
  {
    if s != [] {
      var rest := SplitOn(s[1..], sep);
      JoinSplit(s[1..], sep);
      HeadTail(s);
      if s[0] == sep {
        TailOfCons([], rest);
        AppendEmpty([sep]);
      } else {
        var pieces := [[s[0]] + rest[0]] + rest[1..];
        assert SplitOn(s, sep) == pieces;
        if |rest| > 1 {
          var others := Join(rest[1..], sep);
          TailOfCons([s[0]] + rest[0], rest[1..]);
          assert Join(rest, sep) == rest[0] + [sep] + others;
          AppendAssoc([s[0]], rest[0], [sep]);
          AppendAssoc([s[0]], rest[0] + [sep], others);
        }
      }
    }
  }

  /** Splitting a string with no separator in a prefix `p` cuts exactly after `p`. */
  lemma {:induction false} SplitAfterPiece(p: string, sep: char, rest: string)
    requires sep !in p
    ensures SplitOn(p + [sep] + rest, sep) == [p] + SplitOn(rest, sep)
    ensures SplitOn(p, sep) == [p]
    decreases |p|
  {
    if p == [] {
      assert [] + [sep] + rest == [sep] + rest;
      assert ([sep] + rest)[1..] == rest;
    } else {
      SplitAfterPiece(p[1..], sep, rest);
      assert (p + [sep] + rest)[1..] == p[1..] + [sep] + rest;
      assert [p[0]] + p[1..] == p;
    }
  }

  /** Splitting a join of separator-free parts gives back the parts. */
  lemma {:induction false} SplitJoin(parts: seq<string>, sep: char)
    requires |parts| >= 1
    requires forall p :: p in parts ==> sep !in p
    ensures SplitOn(Join(parts, sep), sep) == parts
    decreases |parts|
  {
    SplitAfterPiece(parts[0], sep, []);
    if |parts| > 1 {
      SplitJoin(parts[1..], sep);
      SplitAfterPiece(parts[0], sep, Join(parts[1..], sep));
      assert [parts[0]] + parts[1..] == parts;
    }
  }

  predicate IsDigit(c: char) {
    '0' <= c <= '9'
  }

  function DigitChar(d: nat): (c: char)
    requires d < 10
    ensures IsDigit(c)
  {
    ('0' as int + d) as char
  }

  function DigitValue(c: char): nat
    requires IsDigit(c)
  {
    c as int - '0' as int
  }

  /** The decimal numeral a template literal produces for `n`: no sign, no leading zero. */
  function NatToDecimal(n: nat): (s: string)
    ensures |s| >= 1 && forall c :: c in s ==> IsDigit(c)
    ensures s[0] == '0' ==> n == 0 && s == "0"
    decreases n
  {
    if n < 10 then [DigitChar(n)] else NatToDecimal(n / 10) + [DigitChar(n % 10)]
  }

  /** The value of a numeral, read most significant digit first. */
  function DecimalValue(s: string): nat
    requires forall c :: c in s ==> IsDigit(c)
    decreases |s|
  {
    if s == [] then 0
    else
      assert s[|s| - 1] in s;
      10 * DecimalValue(s[..|s| - 1]) + DigitValue(s[|s| - 1])
  }

  /** Reading a rendered counter back gives the counter. */
  lemma {:induction false} DecimalRoundTrip(n: nat)
    ensures DecimalValue(NatToDecimal(n)) == n
    decreases n
  {
    var s := NatToDecimal(n);
    if n >= 10 {
      DecimalRoundTrip(n / 10);
      assert s[..|s| - 1] == NatToDecimal(n / 10);
    }
  }

  /** Distinct counters render to distinct numerals. */
  lemma NatToDecimalInjective(a: nat, b: nat)
    requires a != b
    ensures NatToDecimal(a) != NatToDecimal(b)
  {
    DecimalRoundTrip(a);
    DecimalRoundTrip(b);
  }

}
