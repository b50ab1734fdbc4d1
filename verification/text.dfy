/** String helpers with JavaScript semantics: the white space that
    `String.prototype.trim` strips, decimal rendering of non-negative numbers
    (`Number.prototype.toString`) and `String.prototype.padStart`. */
module Text {

  /** ECMAScript WhiteSpace and LineTerminator code points, the set `trim` removes. */
  predicate IsWhitespace(c: char) {
    var n := c as int;
    (0x09 <= n <= 0x0D) || n == 0x20 || n == 0xA0 || n == 0x1680
    || (0x2000 <= n <= 0x200A) || n == 0x2028 || n == 0x2029
    || n == 0x202F || n == 0x205F || n == 0x3000 || n == 0xFEFF
  }

  predicate AllWhitespace(s: string) {
    forall i :: 0 <= i < |s| ==> IsWhitespace(s[i])
  }

  lemma AllWhitespaceConcat(a: string, b: string)
    ensures AllWhitespace(a + b) <==> AllWhitespace(a) && AllWhitespace(b)
  {
    if AllWhitespace(a + b) {
      forall i | 0 <= i < |a| ensures IsWhitespace(a[i]) {
        assert a[i] == (a + b)[i];
      }
      forall i | 0 <= i < |b| ensures IsWhitespace(b[i]) {
        assert b[i] == (a + b)[|a| + i];
      }
    }
    if AllWhitespace(a) && AllWhitespace(b) {
      forall i | 0 <= i < |a + b| ensures IsWhitespace((a + b)[i]) {
        if i < |a| { assert (a + b)[i] == a[i]; } else { assert (a + b)[i] == b[i - |a|]; }
      }
    }
  }

  /** How many white-space characters `s` starts with. */
  function LeadingWhitespace(s: string): (n: nat)
    ensures n <= |s| && AllWhitespace(s[..n])
    ensures n < |s| ==> !IsWhitespace(s[n])
  {
    if s != [] && IsWhitespace(s[0]) then
      var m := LeadingWhitespace(s[1..]);
      assert s[..m + 1] == [s[0]] + s[1..][..m];
      AllWhitespaceConcat([s[0]], s[1..][..m]);
      m + 1
    else 0
  }

  /** How many white-space characters `s` ends with. */
  function TrailingWhitespace(s: string): (n: nat)
    ensures n <= |s| && AllWhitespace(s[|s| - n..])
    ensures n < |s| ==> !IsWhitespace(s[|s| - n - 1])
  {
    if s != [] && IsWhitespace(s[|s| - 1]) then
      var front := s[..|s| - 1];
      var m := TrailingWhitespace(front);
      assert s[|s| - (m + 1)..] == front[|front| - m..] + [s[|s| - 1]];
      AllWhitespaceConcat(front[|front| - m..], [s[|s| - 1]]);
      m + 1
    else 0
  }

  /** `String.prototype.trim`: the infix of `s` between its leading and its
      trailing white space; empty exactly when `s` is all white space. */
  function Trim(s: string): (r: string)
    ensures r == [] || (!IsWhitespace(r[0]) && !IsWhitespace(r[|r| - 1]))
    ensures r == [] <==> AllWhitespace(s)
    ensures var k := LeadingWhitespace(s);
      k + |r| <= |s| && r == s[k..k + |r|]
      && AllWhitespace(s[..k]) && AllWhitespace(s[k + |r|..])
  {
    var k := LeadingWhitespace(s);
    TrimParts(s, k, TrailingWhitespace(s[k..]));
    TrimFrom(s, k)
  }

  /** `s` from index `k` on, without its trailing white space. */
  function TrimFrom(s: string, k: nat): string
    requires k <= |s|
  {
    s[k..|s| - TrailingWhitespace(s[k..])]
  }

  /** Cutting `k` leading white-space characters and then the `m` trailing
      ones of what is left. */
  lemma TrimParts(s: string, k: nat, m: nat)
    requires k <= |s| && AllWhitespace(s[..k]) && (k < |s| ==> !IsWhitespace(s[k]))
    requires m <= |s| - k && AllWhitespace(s[k..][|s| - k - m..])
    requires m < |s| - k ==> !IsWhitespace(s[k..][|s| - k - m - 1])
    ensures var r := s[k..|s| - m];
      && (r == [] || (!IsWhitespace(r[0]) && !IsWhitespace(r[|r| - 1])))
      && (r == [] <==> AllWhitespace(s))
      && k + |r| == |s| - m
      && AllWhitespace(s[|s| - m..])
  {
    var r := s[k..|s| - m];
    assert s[k..][|s| - k - m..] == s[|s| - m..];
    if r == [] {
      assert s == s[..k] + s[|s| - m..];
      AllWhitespaceConcat(s[..k], s[|s| - m..]);
    } else {
      assert s[k..][|s| - k - m - 1] == s[|s| - m - 1];
      assert r[0] == s[k] && r[|r| - 1] == s[|s| - m - 1];
    }
  }

  /** A leading white-space character does not change the trim. */
  lemma TrimDropsLeadingWhitespace(c: char, s: string)
    requires IsWhitespace(c)
    ensures Trim([c] + s) == Trim(s)
  {
    var k := LeadingWhitespace(s);
    LeadingWhitespaceCons(c, s);
    assert Trim([c] + s) == TrimFrom([c] + s, k + 1);
    TrimFromCons(c, s, k);
  }

  lemma LeadingWhitespaceCons(c: char, s: string)
    requires IsWhitespace(c)
    ensures LeadingWhitespace([c] + s) == LeadingWhitespace(s) + 1
  {
    assert ([c] + s)[1..] == s;
  }

  lemma TrimFromCons(c: char, s: string, k: nat)
    requires k <= |s|
    ensures TrimFrom([c] + s, k + 1) == TrimFrom(s, k)
  {
    var cs := [c] + s;
    assert cs[k + 1..] == s[k..];
    var m := TrailingWhitespace(s[k..]);
    var x, y := cs[k + 1..|cs| - m], s[k..|s| - m];
    forall i | 0 <= i < |x| ensures x[i] == y[i] {
      assert x[i] == cs[k + 1 + i] && y[i] == s[k + i];
    }
  }

  /** A string without leading or trailing white space is its own trim. */
  lemma TrimOfTrimmed(s: string)
    requires s == [] || (!IsWhitespace(s[0]) && !IsWhitespace(s[|s| - 1]))
    ensures Trim(s) == s
  {
  }

  predicate IsDigit(c: char) {
    '0' <= c <= '9'
  }

  predicate AllDigits(s: string) {
    forall i :: 0 <= i < |s| ==> IsDigit(s[i])
  }

  function DigitChar(d: nat): (c: char)
    requires d < 10
    ensures IsDigit(c) && c as int - '0' as int == d
  {
    ('0' as int + d) as char
  }

  function DigitValue(c: char): (d: nat)
    requires IsDigit(c)
    ensures d < 10 && DigitChar(d) == c
  {
    c as int - '0' as int
  }

  /** `n.toString()` for a non-negative integer: its decimal digits, most
      significant first, with no leading zero. */
  function NatToDecimal(n: nat): (r: string)
    ensures 1 <= |r| && AllDigits(r)
    ensures r[0] != '0' || n == 0
    decreases n
  {
    if n < 10 then [DigitChar(n)] else NatToDecimal(n / 10) + [DigitChar(n % 10)]
  }

  /** The rendering starts with '0' only when it is "0" itself. */
  lemma NoLeadingZero(n: nat)
    ensures |NatToDecimal(n)| == 1 || NatToDecimal(n)[0] != '0'
  {
    if n < 10 {
      assert NatToDecimal(n) == [DigitChar(n)];
    }
  }

  /** Reads a string of decimal digits back as a number (the empty string reads as 0). */
  function DecimalValue(s: string): nat
    requires AllDigits(s)
  {
    if s == [] then 0 else DecimalValue(s[..|s| - 1]) * 10 + DigitValue(s[|s| - 1])
  }

  /** Reading back the rendered digits gives the number again. */
  lemma {:induction false} DecimalRoundTrip(n: nat)
    ensures DecimalValue(NatToDecimal(n)) == n
    decreases n
  {
    if n >= 10 {
      var a := NatToDecimal(n / 10);
      var r := a + [DigitChar(n % 10)];
      assert r[..|r| - 1] == a;
      DecimalRoundTrip(n / 10);
    }
  }

  /** A leading zero does not change the value of a digit string. */
  lemma {:induction false} DecimalLeadingZero(s: string)
    requires AllDigits(s)
    ensures AllDigits("0" + s) && DecimalValue("0" + s) == DecimalValue(s)
    decreases |s|
  {
    var z := "0" + s;
    if s != [] {
      assert z[..|z| - 1] == "0" + s[..|s| - 1];
      DecimalLeadingZero(s[..|s| - 1]);
    }
  }

  /** `s.padStart(n, c)`: `s` preceded by enough copies of `c` to reach length `n`. */
  function PadStart(s: string, n: nat, c: char): (r: string)
    ensures |r| == if |s| >= n then |s| else n
    ensures r[|r| - |s|..] == s
    ensures forall i :: 0 <= i < |r| - |s| ==> r[i] == c
  {
    if |s| >= n then s else seq(n - |s|, _ => c) + s
  }

  /** JavaScript's `length`: UTF-16 code units, one for a character in the
      Basic Multilingual Plane and two (a surrogate pair) for any other. */
  function Utf16Length(s: string): (n: nat)
    ensures |s| <= n <= 2 * |s|
  {
    if s == [] then 0 else (if (s[0] as int) < 0x1_0000 then 1 else 2) + Utf16Length(s[1..])
  }

  /** Text inside the Basic Multilingual Plane is one code unit per
      character, and one character outside it makes the text longer. */
  lemma {:induction false} Utf16LengthOfBmp(s: string)
    ensures Utf16Length(s) == |s| <==> forall i :: 0 <= i < |s| ==> (s[i] as int) < 0x1_0000
    decreases |s|
  {
    if s != [] {
      Utf16LengthOfBmp(s[1..]);
      assert forall i :: 1 <= i < |s| ==> s[i] == s[1..][i - 1];
    }
  }
}
