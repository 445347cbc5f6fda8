/** String operations used by the dialogs, with Python's meaning.

    Case mapping covers ASCII, Latin-1, basic Greek and the few other letters
    that the compose table lower-cases; every other character maps to itself. */
module Text {

  /** `s.startswith(p)` */
  predicate StartsWith(s: string, p: string) {
    |p| <= |s| && s[..|p|] == p
  }

  /** `s.endswith(p)` */
  predicate EndsWith(s: string, p: string) {
    |p| <= |s| && s[|s| - |p|..] == p
  }

  /** `p in s`: p occurs in s as a contiguous substring. */
  predicate Contains(s: string, p: string)
    decreases |s|
  {
    StartsWith(s, p) || (|s| > 0 && Contains(s[1..], p))
  }

  lemma {:induction false} ContainsAt(s: string, p: string, i: nat)
    requires i + |p| <= |s| && s[i..i + |p|] == p
    ensures Contains(s, p)
  {
    if i > 0 {
      assert s[1..][i - 1..i - 1 + |p|] == p;
      ContainsAt(s[1..], p, i - 1);
    }
  }

  lemma {:induction false} ContainsLength(s: string, p: string)
    requires Contains(s, p)
    ensures |p| <= |s|
  {
    if !StartsWith(s, p) {
      ContainsLength(s[1..], p);
    }
  }

  /** A string that does not hold character c cannot contain a pattern holding c. */
  lemma {:induction false} NotContainsChar(s: string, p: string, c: char)
    requires c !in s && c in p
    ensures !Contains(s, p)
  {
    var k :| 0 <= k < |p| && p[k] == c;
    if |p| <= |s| {
      assert s[..|p|][k] == s[k];
    }
    if |s| > 0 {
      assert c !in s[1..] by {
        forall j | 0 <= j < |s| - 1 ensures s[1..][j] != c {
          assert s[1..][j] == s[j + 1];
        }
      }
      NotContainsChar(s[1..], p, c);
    }
  }

  // ---------------------------------------------------------------------
  // Case mapping

  /** `c.lower()` for the characters this model knows; others map to themselves. */
  function LowerChar(c: char): char {
    if 'A' <= c <= 'Z' then (c as int + 32) as char
    else if '\U{00C0}' <= c <= '\U{00DE}' && c != '\U{00D7}' then (c as int + 32) as char
    else if '\U{0391}' <= c <= '\U{03A9}' && c != '\U{03A2}' then (c as int + 32) as char
    else if c == '\U{0152}' then '\U{0153}'   // OE ligature
    else if c == '\U{0178}' then '\U{00FF}'   // Y with diaeresis
    else if c == '\U{1E9E}' then '\U{00DF}'   // capital sharp s
    else if c == '\U{1FBA}' then '\U{1F70}'   // Greek vowels with varia
    else if c == '\U{1FC8}' then '\U{1F72}'
    else if c == '\U{1FCA}' then '\U{1F74}'
    else if c == '\U{1FDA}' then '\U{1F76}'
    else if c == '\U{1FF8}' then '\U{1F78}'
    else if c == '\U{1FEA}' then '\U{1F7A}'
    else if c == '\U{1FFA}' then '\U{1F7C}'
    else if c == '\U{1FBC}' then '\U{1FB3}'   // Greek vowels with prosgegrammeni
    else if c == '\U{1FCC}' then '\U{1FC3}'
    else if c == '\U{1FFC}' then '\U{1FF3}'
    else c
  }

  /** Lower-casing maps a space, and only a space, to a space. */
  lemma LowerCharSpace(c: char)
    ensures (LowerChar(c) == ' ') == (c == ' ')
  {
  }

  /** `s.lower()` */
  function Lower(s: string): (r: string)
    ensures |r| == |s|
    ensures forall i :: 0 <= i < |s| ==> r[i] == LowerChar(s[i])
  {
    seq(|s|, i requires 0 <= i < |s| => LowerChar(s[i]))
  }

  /** `c.upper()` for the small letters whose capital is one character and
      whose capital `LowerChar` knows, plus the micro sign and final sigma;
      others map to themselves. */
  function UpperChar(c: char): char {
    if 'a' <= c <= 'z' then (c as int - 32) as char
    else if '\U{00E0}' <= c <= '\U{00FE}' && c != '\U{00F7}' then (c as int - 32) as char
    else if '\U{03B1}' <= c <= '\U{03C9}' && c != '\U{03C2}' then (c as int - 32) as char
    else if c == '\U{03C2}' then '\U{03A3}'   // final sigma
    else if c == '\U{00B5}' then '\U{039C}'   // micro sign
    else if c == '\U{00FF}' then '\U{0178}'   // y with diaeresis
    else if c == '\U{0153}' then '\U{0152}'   // oe ligature
    else if c == '\U{1F70}' then '\U{1FBA}'   // Greek vowels with varia
    else if c == '\U{1F72}' then '\U{1FC8}'
    else if c == '\U{1F74}' then '\U{1FCA}'
    else if c == '\U{1F76}' then '\U{1FDA}'
    else if c == '\U{1F78}' then '\U{1FF8}'
    else if c == '\U{1F7A}' then '\U{1FEA}'
    else if c == '\U{1F7C}' then '\U{1FFA}'
    else c
  }

  /** Upper-casing a letter and lower-casing it again gives the letter back,
      except for the micro sign and final sigma, whose capitals lower-case to
      mu and sigma. */
  lemma LowerUpperChar(c: char)
    requires UpperChar(c) != c && c != '\U{00B5}' && c != '\U{03C2}'
    ensures LowerChar(UpperChar(c)) == c
    ensures UpperChar(c) != LowerChar(UpperChar(c))
  {
  }

  // ---------------------------------------------------------------------
  // Whitespace stripping

  /** The characters Python's `str.strip()` treats as whitespace: the ASCII
      tab, line and form controls, the file, group, record and unit
      separators, next line, and the Unicode space and line separators. */
  predicate IsSpace(c: char) {
    ('\U{0009}' <= c <= '\U{000D}') || ('\U{001C}' <= c <= '\U{0020}')
    || c == '\U{0085}' || c == '\U{00A0}' || c == '\U{1680}'
    || ('\U{2000}' <= c <= '\U{200A}') || c == '\U{2028}' || c == '\U{2029}'
    || c == '\U{202F}' || c == '\U{205F}' || c == '\U{3000}'
  }

  function StripLeft(s: string): (r: string)
    ensures |r| <= |s| && r == s[|s| - |r|..]
    ensures r == [] || !IsSpace(r[0])
  {
    if |s| > 0 && IsSpace(s[0]) then
      var r := StripLeft(s[1..]);
      assert s[1..][|s| - 1 - |r|..] == s[|s| - |r|..];
      r
    else s
  }

  function StripRight(s: string): (r: string)
    ensures |r| <= |s| && r == s[..|r|]
    ensures r == [] || !IsSpace(r[|r| - 1])
  {
    if |s| > 0 && IsSpace(s[|s| - 1]) then
      var r := StripRight(s[..|s| - 1]);
      assert s[..|s| - 1][..|r|] == s[..|r|];
      r
    else s
  }

  /** `s.strip()`: no leading or trailing whitespace, and a slice of s. */
  function Strip(s: string): (r: string)
    ensures |r| <= |s|
    ensures r == [] || (!IsSpace(r[0]) && !IsSpace(r[|r| - 1]))
  {
    StripRight(StripLeft(s))
  }

  // ---------------------------------------------------------------------
  // Literal replacement: `s.replace(pat, rep)` and `re.sub` of a literal

  /** Every non-overlapping occurrence of pat, scanning left to right, becomes rep. */
  function ReplaceAll(s: string, pat: string, rep: string): string
    requires |pat| > 0
    decreases |s|
  {
    if s == [] then []
    else if StartsWith(s, pat) then rep + ReplaceAll(s[|pat|..], pat, rep)
    else [s[0]] + ReplaceAll(s[1..], pat, rep)
  }

  /** Replacing a single character c by a string without c leaves no c behind. */
  lemma {:induction false} ReplaceCharRemoves(s: string, c: char, rep: string)
    requires c !in rep
    ensures c !in ReplaceAll(s, [c], rep)
  {
    if s != [] {
      ReplaceCharRemoves(s[1..], c, rep);
      if StartsWith(s, [c]) {
        assert s[1..] == s[|[c]|..];
      } else {
        assert s[..1] == [s[0]];
      }
    }
  }

  /** A replacement never touches a prefix made only of characters absent from the pattern. */
  lemma {:induction false} ReplaceKeepsPrefix(p: string, t: string, pat: string, rep: string)
    requires |pat| > 0
    requires forall i :: 0 <= i < |p| ==> p[i] !in pat
    ensures ReplaceAll(p + t, pat, rep) == p + ReplaceAll(t, pat, rep)
  {
    if p != [] {
      assert pat[0] in pat;
      assert !StartsWith(p + t, pat) by {
        if |pat| <= |p + t| {
          assert (p + t)[..|pat|][0] == p[0];
        }
      }
      assert (p + t)[1..] == p[1..] + t;
      assert forall i :: 0 <= i < |p| - 1 ==> p[1..][i] == p[i + 1];
      ReplaceKeepsPrefix(p[1..], t, pat, rep);
      calc {
        ReplaceAll(p + t, pat, rep);
        [(p + t)[0]] + ReplaceAll((p + t)[1..], pat, rep);
        [p[0]] + (p[1..] + ReplaceAll(t, pat, rep));
        { assert [p[0]] + p[1..] == p; }
        p + ReplaceAll(t, pat, rep);
      }
    } else {
      assert p + t == t;
    }
  }

  /** Nor a suffix made only of characters absent from the pattern. */
  lemma {:induction false} ReplaceKeepsSuffix(u: string, t: string, pat: string, rep: string)
    requires |pat| > 0
    requires forall i :: 0 <= i < |t| ==> t[i] !in pat
    ensures ReplaceAll(u + t, pat, rep) == ReplaceAll(u, pat, rep) + t
    decreases |u|
  {
    assert StartsWith(u, pat) ==> StartsWith(u + t, pat) by {
      if StartsWith(u, pat) {
        assert (u + t)[..|pat|] == u[..|pat|];
      }
    }
    if u == [] {
      assert u + t == t;
      NoPatternCharUnchanged(t, pat, rep);
    } else if StartsWith(u + t, pat) {
      forall k | 0 <= k < |pat| ensures pat[k] == (u + t)[k] && k < |u| {
        assert (u + t)[k] == pat[k];
        assert pat[k] in pat;
      }
      assert pat[|pat| - 1] == (u + t)[|pat| - 1];
      assert |pat| - 1 < |u|;
      assert u[..|pat|] == (u + t)[..|pat|];
      assert (u + t)[|pat|..] == u[|pat|..] + t;
      ReplaceKeepsSuffix(u[|pat|..], t, pat, rep);
    } else {
      assert (u + t)[1..] == u[1..] + t;
      assert (u + t)[0] == u[0];
      ReplaceKeepsSuffix(u[1..], t, pat, rep);
    }
  }

  /** A start made only of characters absent from the pattern survives. */
  lemma ReplaceKeepsStart(s: string, p: string, pat: string, rep: string)
    requires |pat| > 0 && StartsWith(s, p)
    requires forall i :: 0 <= i < |p| ==> p[i] !in pat
    ensures StartsWith(ReplaceAll(s, pat, rep), p)
  {
    assert s == p + s[|p|..];
    ReplaceKeepsPrefix(p, s[|p|..], pat, rep);
    assert (p + ReplaceAll(s[|p|..], pat, rep))[..|p|] == p;
  }

  /** So does an end made only of such characters. */
  lemma ReplaceKeepsEnd(s: string, q: string, pat: string, rep: string)
    requires |pat| > 0 && EndsWith(s, q)
    requires forall i :: 0 <= i < |q| ==> q[i] !in pat
    ensures EndsWith(ReplaceAll(s, pat, rep), q)
  {
    var u := s[..|s| - |q|];
    assert s == u + q;
    ReplaceKeepsSuffix(u, q, pat, rep);
    var r := ReplaceAll(u, pat, rep);
    assert (r + q)[|r + q| - |q|..] == q;
  }

  /** One occurrence of pat between texts without any of pat's characters is
      replaced once, and nothing else changes. */
  lemma {:induction false} ReplaceSingle(a: string, b: string, pat: string, rep: string)
    requires |pat| > 0
    requires forall i :: 0 <= i < |a| ==> a[i] !in pat
    requires forall i :: 0 <= i < |b| ==> b[i] !in pat
    ensures ReplaceAll(a + pat + b, pat, rep) == a + rep + b
  {
    calc {
      ReplaceAll(a + pat + b, pat, rep);
      { assert a + pat + b == a + (pat + b); }
      ReplaceAll(a + (pat + b), pat, rep);
      { ReplaceKeepsPrefix(a, pat + b, pat, rep); }
      a + ReplaceAll(pat + b, pat, rep);
      { ReplaceAtPattern(b, pat, rep); }
      a + (rep + ReplaceAll(b, pat, rep));
      { NoPatternCharUnchanged(b, pat, rep); }
      a + (rep + b);
      a + rep + b;
    }
  }

  /** Text that starts with pat has that occurrence replaced first. */
  lemma {:induction false} ReplaceAtPattern(b: string, pat: string, rep: string)
    requires |pat| > 0
    ensures ReplaceAll(pat + b, pat, rep) == rep + ReplaceAll(b, pat, rep)
  {
    var pb := pat + b;
    assert pb[..|pat|] == pat && pb[|pat|..] == b;
  }

  lemma {:induction false} NoPatternCharUnchanged(t: string, pat: string, rep: string)
    requires |pat| > 0
    requires forall i :: 0 <= i < |t| ==> t[i] !in pat
    ensures ReplaceAll(t, pat, rep) == t
  {
    if t != [] {
      assert pat[0] in pat;
      assert !StartsWith(t, pat);
      NoPatternCharUnchanged(t[1..], pat, rep);
    }
  }

  // ---------------------------------------------------------------------
  // Splitting and joining on one character

  /** `s.split(c)` for a one-character separator: empty fields are kept. */
  function Split(s: string, c: char): (parts: seq<string>)
    ensures |parts| >= 1
    decreases |s|
  {
    if s == [] then [[]]
    else if s[0] == c then [[]] + Split(s[1..], c)
    else
      var rest := Split(s[1..], c);
      [[s[0]] + rest[0]] + rest[1..]
  }

  /** `c.join(parts)` */
  function Join(parts: seq<string>, c: char): string
    decreases |parts|
  {
    if parts == [] then []
    else if |parts| == 1 then parts[0]
    else parts[0] + [c] + Join(parts[1..], c)
  }

  /** Joining the fields of a split gives back the original string. */
  lemma {:induction false} JoinSplit(s: string, c: char)
    ensures Join(Split(s, c), c) == s
    decreases |s|
  {
    if s != [] {
      JoinSplit(s[1..], c);
      var rest := Split(s[1..], c);
      if s[0] == c {
        assert Split(s, c) == [[]] + rest;
        assert ([[]] + rest)[1..] == rest;
      } else {
        var parts := [[s[0]] + rest[0]] + rest[1..];
        assert Split(s, c) == parts;
        if |rest| == 1 {
          assert Join(rest, c) == rest[0];
        } else {
          assert parts[1..] == rest[1..];
          assert Join(rest, c) == rest[0] + [c] + Join(rest[1..], c);
        }
      }
    }
  }

  /** No field of a split holds the separator. */
  lemma {:induction false} SplitFieldsFree(s: string, c: char)
    ensures forall k :: 0 <= k < |Split(s, c)| ==> c !in Split(s, c)[k]
    decreases |s|
  {
    if s != [] {
      SplitFieldsFree(s[1..], c);
    }
  }

  /** Splitting a join of separator-free fields gives back the fields. */
  lemma {:induction false} SplitJoin(parts: seq<string>, c: char)
    requires |parts| >= 1
    requires forall k :: 0 <= k < |parts| ==> c !in parts[k]
    ensures Split(Join(parts, c), c) == parts
    decreases |parts|, |parts[0]|
  {
    if |parts[0]| > 0 {
      var p0 := parts[0];
      var tail := [p0[1..]] + parts[1..];
      assert c !in p0[1..] by {
        forall k | 0 <= k < |p0| - 1 ensures p0[1..][k] != c { assert p0[1..][k] == p0[k + 1]; }
      }
      SplitJoin(tail, c);
      assert Join(parts, c) == [p0[0]] + Join(tail, c) by {
        if |parts| == 1 {
        } else {
          assert tail[1..] == parts[1..];
          assert Join(tail, c) == p0[1..] + [c] + Join(parts[1..], c);
        }
      }
      var j := Join(parts, c);
      assert j[0] == p0[0] && j[1..] == Join(tail, c);
      assert Split(j, c) == [[p0[0]] + tail[0]] + tail[1..];
      assert [p0[0]] + p0[1..] == p0;
    } else if |parts| > 1 {
      SplitJoin(parts[1..], c);
      assert Join(parts, c) == [c] + Join(parts[1..], c);
      var j := Join(parts, c);
      assert j[1..] == Join(parts[1..], c);
      assert parts == [[]] + parts[1..];
    }
  }

  // ---------------------------------------------------------------------
  // Reversal

  /** `s[::-1]` */
  function Reverse(s: string): (r: string)
    ensures |r| == |s|
    ensures forall i :: 0 <= i < |s| ==> r[i] == s[|s| - 1 - i]
  {
    seq(|s|, i requires 0 <= i < |s| => s[|s| - 1 - i])
  }

  // ---------------------------------------------------------------------
  // Digits

  /** ASCII decimal digit (`\d` restricted to ASCII). */
  predicate IsDigit(c: char) { '0' <= c <= '9' }

  /** `[0-9a-fA-F]` */
  predicate IsHexDigit(c: char) { '0' <= c <= '9' || 'a' <= c <= 'f' || 'A' <= c <= 'F' }

  predicate AllDigits(s: string) { forall i :: 0 <= i < |s| ==> IsDigit(s[i]) }

  predicate AllHexDigits(s: string) { forall i :: 0 <= i < |s| ==> IsHexDigit(s[i]) }

  function HexDigitValue(c: char): (v: nat)
    requires IsHexDigit(c)
    ensures v < 16
  {
    if '0' <= c <= '9' then c as int - '0' as int
    else if 'a' <= c <= 'f' then c as int - 'a' as int + 10
    else c as int - 'A' as int + 10
  }

  /** `int(s, 16)` for a string of hex digits. */
  function HexValue(s: string): nat
    requires AllHexDigits(s)
  {
    if s == [] then 0 else HexValue(s[..|s| - 1]) * 16 + HexDigitValue(s[|s| - 1])
  }

  /** `int(s)` for a string of ASCII decimal digits. */
  function DecimalValue(s: string): nat
    requires AllDigits(s)
  {
    if s == [] then 0 else DecimalValue(s[..|s| - 1]) * 10 + (s[|s| - 1] as int - '0' as int)
  }

  function DigitChar(d: nat): (c: char)
    requires d < 10
    ensures IsDigit(c) && c as int - '0' as int == d
  {
    ('0' as int + d) as char
  }

  /** `str(n)` */
  function Decimal(n: nat): (s: string)
    ensures |s| >= 1 && AllDigits(s)
  {
    if n < 10 then [DigitChar(n)] else Decimal(n / 10) + [DigitChar(n % 10)]
  }

  /** Reading back `str(n)` gives n. */
  lemma {:induction false} DecimalRoundTrip(n: nat)
    ensures DecimalValue(Decimal(n)) == n
  {
    if n >= 10 {
      DecimalRoundTrip(n / 10);
      var s := Decimal(n);
      assert s[..|s| - 1] == Decimal(n / 10);
    }
  }

  /** Numbers from 10 up have at least two decimal digits. */
  lemma DecimalTwoDigits(n: nat)
    requires n >= 10
    ensures |Decimal(n)| >= 2
  {
  }

  function Pow10(k: nat): (p: nat)
    ensures p >= 1
  {
    if k == 0 then 1 else 10 * Pow10(k - 1)
  }

  /** A number of at least 10^k has more than k decimal digits. */
  lemma {:induction false} DecimalLength(n: nat, k: nat)
    requires n >= Pow10(k)
    ensures |Decimal(n)| > k
  {
    if k > 0 {
      assert n >= 10;
      DecimalLength(n / 10, k - 1);
    }
  }

  function HexChar(d: nat, upper: bool): (c: char)
    requires d < 16
    ensures IsHexDigit(c) && HexDigitValue(c) == d
  {
    if d < 10 then DigitChar(d)
    else if upper then ('A' as int + d - 10) as char
    else ('a' as int + d - 10) as char
  }

  /** `f"{n:04x}"` for n below 0x10000: exactly four lower-case hex digits. */
  function Hex4(n: nat): (s: string)
    requires n < 0x10000
    ensures |s| == 4 && AllHexDigits(s)
  {
    [HexChar(n / 4096, false), HexChar(n / 256 % 16, false), HexChar(n / 16 % 16, false), HexChar(n % 16, false)]
  }

  lemma Hex4RoundTrip(n: nat)
    requires n < 0x10000
    ensures HexValue(Hex4(n)) == n
  {
    var s := Hex4(n);
    var a, b, c := n / 16, n / 256, n / 4096;
    assert b == a / 16 && c == b / 16;
    assert s[..3][..2] == s[..2] && s[..2][..1] == s[..1] && s[..1][..0] == [];
    assert HexValue(s[..1]) == c;
    assert HexValue(s[..2]) == c * 16 + b % 16 == b;
    assert HexValue(s[..3]) == b * 16 + a % 16 == a;
    assert HexValue(s) == a * 16 + n % 16 == n;
  }

  /** Minimal upper-case hex digits of n, as `f"{n:X}"`. */
  function HexUpper(n: nat): (s: string)
    ensures |s| >= 1 && AllHexDigits(s)
  {
    if n < 16 then [HexChar(n, true)] else HexUpper(n / 16) + [HexChar(n % 16, true)]
  }

  /** Reading back `f"{n:X}"` gives n. */
  lemma {:induction false} HexUpperRoundTrip(n: nat)
    ensures HexValue(HexUpper(n)) == n
    ensures n >= 16 ==> |HexUpper(n)| >= 2
  {
    if n >= 16 {
      HexUpperRoundTrip(n / 16);
      var s := HexUpper(n);
      assert s[..|s| - 1] == HexUpper(n / 16);
    }
  }

  /** `f"{n:04X}"`: at least four upper-case hex digits, zero-padded. */
  function Hex04Upper(n: nat): (s: string)
    ensures |s| >= 4 && AllHexDigits(s)
  {
    var h := HexUpper(n);
    if |h| >= 4 then h else seq(4 - |h|, _ => '0') + h
  }
}
