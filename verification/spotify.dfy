/** The pure helpers of lib/spotify.ts: the catalog search query built from a
    Spotify track, the `m:ss` duration rendering, and the base64url rewrite
    applied to the PKCE code verifier and code challenge. */
module Spotify {
  import opened Text

  /** A Spotify track reference. A missing artist name is the empty string
      (both are falsy where the source reads it). */
  datatype ForeignTrack = ForeignTrack(id: string, name: string, artistNames: seq<string>, isLocal: bool)

  /** `track.artists[0]?.name || ''`. */
  function FirstArtist(t: ForeignTrack): (a: string)
    ensures |t.artistNames| == 0 ==> a == []
    ensures |t.artistNames| > 0 ==> a == t.artistNames[0]
  {
    if |t.artistNames| == 0 then [] else t.artistNames[0]
  }

  /** `spotifyTrackToSearchQuery`: "<first artist> <title>" with its outer
      white space cut away (see `Text.Trim`). The query carries no outer
      white space and is empty exactly when both parts are blank. */
  function SearchQuery(t: ForeignTrack): (q: string)
    ensures q == [] || (!IsWhitespace(q[0]) && !IsWhitespace(q[|q| - 1]))
    ensures q == [] <==> AllWhitespace(FirstArtist(t)) && AllWhitespace(t.name)
    ensures |q| <= |FirstArtist(t)| + 1 + |t.name|
  {
    BlankJoin(FirstArtist(t), t.name);
    Trim(FirstArtist(t) + " " + t.name)
  }

  /** "<a> <b>" is blank exactly when both parts are. */
  lemma BlankJoin(a: string, b: string)
    ensures AllWhitespace(a + " " + b) <==> AllWhitespace(a) && AllWhitespace(b)
  {
    AllWhitespaceConcat(a, " ");
    assert IsWhitespace(" "[0]);
    AllWhitespaceConcat(a + " ", b);
  }

  /** With a non-blank artist and title that carry no outer white space, the
      query is exactly "<artist> <title>". */
  lemma SearchQueryOfCleanParts(t: ForeignTrack)
    requires |t.artistNames| > 0
    requires var a := t.artistNames[0]; a != [] && !IsWhitespace(a[0]) && !IsWhitespace(a[|a| - 1])
    requires t.name != [] && !IsWhitespace(t.name[0]) && !IsWhitespace(t.name[|t.name| - 1])
    ensures SearchQuery(t) == t.artistNames[0] + " " + t.name
  {
    var raw := t.artistNames[0] + " " + t.name;
    assert raw[0] == t.artistNames[0][0];
    assert raw[|raw| - 1] == t.name[|t.name| - 1];
    TrimOfTrimmed(raw);
  }

  /** A track without artists is searched by its trimmed title alone. */
  lemma SearchQueryWithoutArtist(t: ForeignTrack)
    requires |t.artistNames| == 0
    ensures SearchQuery(t) == Trim(t.name)
  {
    var raw := FirstArtist(t) + " " + t.name;
    assert raw == [' '] + t.name;
    assert SearchQuery(t) == Trim(raw);
    assert IsWhitespace(' ');
    TrimDropsLeadingWhitespace(' ', t.name);
  }

  /** `r` renders `t` seconds as "m:ss": the minute field (no leading zero
      unless it is "0") times 60 plus the two-digit seconds field, below 60,
      reads back as `t`. */
  predicate IsClock(r: string, t: nat) {
    && |r| >= 4 && r[|r| - 3] == ':'
    && AllDigits(r[..|r| - 3]) && AllDigits(r[|r| - 2..])
    && DecimalValue(r[|r| - 2..]) < 60
    && DecimalValue(r[..|r| - 3]) * 60 + DecimalValue(r[|r| - 2..]) == t
    && (|r| == 4 || r[0] != '0')
  }

  /** `msToDuration`: whole minutes, a colon and the leftover whole seconds
      padded to two digits. Read back, the two fields give the duration in
      whole seconds, and the seconds field is always two digits below 60. */
  function MsToDuration(ms: nat): (r: string)
    ensures IsClock(r, ms / 1000)
  {
    var totalSeconds := ms / 1000;
    var m := NatToDecimal(totalSeconds / 60);
    var s := TwoDigits(totalSeconds % 60);
    DecimalRoundTrip(totalSeconds / 60);
    NoLeadingZero(totalSeconds / 60);
    ClockShape(m, s, totalSeconds);
    m + ":" + s
  }

  /** "m:ss" built from the digits of `t / 60` and of `t % 60` renders `t`. */
  lemma ClockShape(m: string, s: string, t: nat)
    requires 1 <= |m| && AllDigits(m) && (|m| == 1 || m[0] != '0') && DecimalValue(m) == t / 60
    requires |s| == 2 && AllDigits(s) && DecimalValue(s) == t % 60
    ensures IsClock(m + ":" + s, t)
  {
    DurationFields(m, s);
    MinutesAndSeconds(t);
  }

  lemma MinutesAndSeconds(t: nat)
    ensures (t / 60) * 60 + t % 60 == t && t % 60 < 60
  {
  }

  /** The fields of "m:ss" read back from its ends. */
  lemma DurationFields(m: string, s: string)
    requires |s| == 2
    ensures var r := m + ":" + s;
      |r| == |m| + 3 && r[|r| - 3] == ':' && r[..|r| - 3] == m && r[|r| - 2..] == s
      && (m != [] && (|m| == 1 || m[0] != '0') ==> |r| == 4 || r[0] != '0')
  {
  }

  /** `seconds.toString().padStart(2, '0')` for a value below 60. */
  function TwoDigits(n: nat): (s: string)
    requires n < 60
    ensures |s| == 2 && AllDigits(s) && DecimalValue(s) == n
  {
    var d := NatToDecimal(n);
    DecimalRoundTrip(n);
    if n < 10 then
      DecimalLeadingZero(d);
      assert PadStart(d, 2, '0') == "0" + d;
      PadStart(d, 2, '0')
    else
      assert d == NatToDecimal(n / 10) + [DigitChar(n % 10)];
      PadStart(d, 2, '0')
  }

  /** 61 seconds render as "1:01": the seconds field keeps its leading zero. */
  lemma MsToDurationPadsSeconds()
    ensures MsToDuration(61000) == "1:01"
  {
    assert 61000 / 1000 == 61 && 61 / 60 == 1 && 61 % 60 == 1;
    assert MsToDuration(61000) == NatToDecimal(1) + ":" + TwoDigits(1);
    assert NatToDecimal(1) == "1";
    var t := TwoDigits(1);
    assert t == PadStart("1", 2, '0');
    assert t[0] == '0' && t[1] == '1';
    assert t == "01";
  }

  /** Leftover milliseconds are dropped: 59999 ms render as "0:59". */
  lemma MsToDurationDropsMilliseconds()
    ensures MsToDuration(59999) == "0:59"
  {
    assert 59999 / 1000 == 59 && 59 / 60 == 0 && 59 % 60 == 59;
    assert NatToDecimal(0) == "0";
    assert NatToDecimal(5) == "5";
    assert NatToDecimal(59) == "59";
    assert TwoDigits(59) == "59";
  }

  /** `s.replace(/x/g, y)` for single characters. */
  function ReplaceChar(s: string, x: char, y: char): (r: string)
    ensures |r| == |s|
    ensures forall i :: 0 <= i < |s| ==> r[i] == if s[i] == x then y else s[i]
  {
    if s == [] then [] else [if s[0] == x then y else s[0]] + ReplaceChar(s[1..], x, y)
  }

  /** `s.replace(/x/g, '')` for a single character: every other character
      survives, in order, and `x` no longer occurs. */
  function RemoveChar(s: string, x: char): (r: string)
    ensures x !in r
    ensures |r| <= |s|
    ensures forall c :: c != x ==> multiset(r)[c] == multiset(s)[c]
    ensures x !in s ==> r == s
  {
    if s == [] then []
    else
      assert s == [s[0]] + s[1..];
      if s[0] == x then RemoveChar(s[1..], x) else [s[0]] + RemoveChar(s[1..], x)
  }

  /** The removal works character by character, so the survivors keep their order. */
  lemma {:induction false} RemoveCharConcat(a: string, b: string, x: char)
    ensures RemoveChar(a + b, x) == RemoveChar(a, x) + RemoveChar(b, x)
    decreases |a|
  {
    if a == [] {
      assert a + b == b;
    } else {
      assert (a + b)[0] == a[0] && (a + b)[1..] == a[1..] + b;
      RemoveCharConcat(a[1..], b, x);
    }
  }

  /** The standard base64 alphabet with its padding character (section 4 of RFC 4648). */
  predicate IsBase64Char(c: char) {
    ('A' <= c <= 'Z') || ('a' <= c <= 'z') || ('0' <= c <= '9') || c == '+' || c == '/' || c == '='
  }

  /** The URL- and filename-safe alphabet (section 5 of RFC 4648), which is
      also the unreserved set a PKCE verifier is drawn from (section 4.1 of RFC 7636). */
  predicate IsBase64UrlChar(c: char) {
    ('A' <= c <= 'Z') || ('a' <= c <= 'z') || ('0' <= c <= '9') || c == '-' || c == '_'
  }

  /** The rewrite chain `.replace(/\+/g, '-').replace(/\//g, '_').replace(/=/g, '')`
      applied to `btoa` output: no '+', '/' or '=' survives, and standard
      base64 text comes out in the URL-safe alphabet. */
  function Base64UrlRewrite(b64: string): (r: string)
    ensures '+' !in r && '/' !in r && '=' !in r
    ensures (forall i :: 0 <= i < |b64| ==> IsBase64Char(b64[i])) ==>
              forall i :: 0 <= i < |r| ==> IsBase64UrlChar(r[i])
  {
    var a := ReplaceChar(b64, '+', '-');
    var b := ReplaceChar(a, '/', '_');
    var r := RemoveChar(b, '=');
    RewriteAlphabet(b64, b, r);
    r
  }

  lemma RewriteAlphabet(b64: string, b: string, r: string)
    requires |b| == |b64| && forall i :: 0 <= i < |b| ==> b[i] == UrlChar(b64[i])
    requires '=' !in r && forall c :: c != '=' ==> multiset(r)[c] == multiset(b)[c]
    ensures '+' !in r && '/' !in r
    ensures (forall i :: 0 <= i < |b64| ==> IsBase64Char(b64[i])) ==>
              forall i :: 0 <= i < |r| ==> IsBase64UrlChar(r[i])
  {
    forall i | 0 <= i < |r| ensures r[i] != '+' && r[i] != '/' {
      var c := r[i];
      assert c in multiset(r);
      assert c in multiset(b);
      var j :| 0 <= j < |b| && b[j] == c;
    }
    if forall i :: 0 <= i < |b64| ==> IsBase64Char(b64[i]) {
      forall i | 0 <= i < |r| ensures IsBase64UrlChar(r[i]) {
        var c := r[i];
        assert c in multiset(r);
        assert c in multiset(b);
        var j :| 0 <= j < |b| && b[j] == c;
        assert IsBase64Char(b64[j]);
      }
    }
  }

  /** Maps the URL-safe characters back to the standard ones. */
  function Base64FromUrl(u: string): (r: string)
    ensures |r| == |u|
  {
    ReplaceChar(ReplaceChar(u, '-', '+'), '_', '/')
  }

  /** On standard base64 text, the rewrite loses only the padding: mapping
      the URL-safe characters back restores the unpadded input. */
  lemma {:induction false} Base64UrlRoundTrip(b64: string)
    requires forall i :: 0 <= i < |b64| ==> IsBase64Char(b64[i])
    ensures Base64FromUrl(Base64UrlRewrite(b64)) == RemoveChar(b64, '=')
  {
    if b64 != [] {
      var tail := b64[1..];
      Base64UrlRoundTrip(tail);
      RewriteCons(b64[0], tail);
      assert b64 == [b64[0]] + tail;
      if b64[0] != '=' {
        FromUrlCons(Base64UrlRewrite(tail), UrlChar(b64[0]));
      }
    }
  }

  /** The URL-safe counterpart of one standard character. */
  function UrlChar(c: char): char {
    if c == '+' then '-' else if c == '/' then '_' else c
  }

  lemma RewriteCons(c: char, tail: string)
    ensures Base64UrlRewrite([c] + tail) ==
      if c == '=' then Base64UrlRewrite(tail) else [UrlChar(c)] + Base64UrlRewrite(tail)
  {
    var s := [c] + tail;
    var a := ReplaceChar(s, '+', '-');
    var b := ReplaceChar(a, '/', '_');
    assert a == [if c == '+' then '-' else c] + ReplaceChar(tail, '+', '-');
    assert b == [UrlChar(c)] + ReplaceChar(ReplaceChar(tail, '+', '-'), '/', '_');
  }

  lemma FromUrlCons(u: string, c: char)
    ensures Base64FromUrl([c] + u) ==
      [if c == '-' then '+' else if c == '_' then '/' else c] + Base64FromUrl(u)
  {
    var s := [c] + u;
    assert ReplaceChar(s, '-', '+') == [if c == '-' then '+' else c] + ReplaceChar(u, '-', '+');
  }
}
