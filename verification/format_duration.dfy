/** `formatDuration` of the admin dashboard (app/admin/dashboard/page.tsx):
    a number of seconds shown as whole hours and minutes, "Hh Mm", or only
    "Mm" below an hour; leftover seconds are dropped. */
module AdminFormat {
  import opened Text

  /** `Math.floor(seconds / 3600)`. */
  function Hours(seconds: nat): nat {
    seconds / 3600
  }

  /** `Math.floor((seconds % 3600) / 60)`. */
  function Minutes(seconds: nat): (m: nat)
    ensures m < 60
  {
    (seconds % 3600) / 60
  }

  /** Hours and minutes together are the whole minutes of `seconds`. */
  lemma WholeMinutes(seconds: nat)
    ensures Hours(seconds) * 60 + Minutes(seconds) == seconds / 60
  {
    var h := seconds / 3600;
    var r := seconds % 3600;
    assert seconds == h * 3600 + r;
    assert r == (r / 60) * 60 + r % 60;
    assert seconds == (h * 60 + r / 60) * 60 + r % 60;
  }

  function FormatDuration(seconds: nat): (r: string)
    ensures Hours(seconds) > 0 ==> r == NatToDecimal(Hours(seconds)) + "h " + NatToDecimal(Minutes(seconds)) + "m"
    ensures Hours(seconds) == 0 ==> r == NatToDecimal(Minutes(seconds)) + "m"
  {
    if Hours(seconds) > 0 then NatToDecimal(Hours(seconds)) + "h " + NatToDecimal(Minutes(seconds)) + "m"
    else NatToDecimal(Minutes(seconds)) + "m"
  }

  /** Two durations print alike exactly when they have the same whole
      minutes: the seconds are dropped and nothing else is lost. */
  lemma FormatIsWholeMinutes(s: nat, t: nat)
    ensures FormatDuration(s) == FormatDuration(t) <==> s / 60 == t / 60
  {
    WholeMinutes(s);
    WholeMinutes(t);
    if s / 60 == t / 60 {
      assert Hours(s) == Hours(t) && Minutes(s) == Minutes(t) by {
        MinutesSplit(s / 60, Hours(s), Minutes(s), Hours(t), Minutes(t));
      }
    }
    if FormatDuration(s) == FormatDuration(t) {
      SameFormatSameParts(s, t);
    }
  }

  /** `60 h + m` with `m < 60` determines `h` and `m`. */
  lemma MinutesSplit(total: nat, h1: nat, m1: nat, h2: nat, m2: nat)
    requires m1 < 60 && m2 < 60
    requires h1 * 60 + m1 == total && h2 * 60 + m2 == total
    ensures h1 == h2 && m1 == m2
  {
    assert (h1 - h2) * 60 == m2 - m1;
  }

  lemma SameFormatSameParts(s: nat, t: nat)
    requires FormatDuration(s) == FormatDuration(t)
    ensures Hours(s) == Hours(t) && Minutes(s) == Minutes(t)
  {
    HoursShownAlike(s, t);
    HoursShownAlike(t, s);
    if Hours(s) > 0 {
      BothWithHours(s, t);
    } else {
      BothWithoutHours(s, t);
    }
  }

  /** A format with hours never equals one without. */
  lemma HoursShownAlike(s: nat, t: nat)
    requires FormatDuration(s) == FormatDuration(t)
    ensures Hours(s) > 0 ==> Hours(t) > 0
  {
    if Hours(s) > 0 && Hours(t) == 0 {
      var hs, xs := NatToDecimal(Hours(s)), " " + NatToDecimal(Minutes(s)) + "m";
      var mt := NatToDecimal(Minutes(t));
      assert FormatDuration(s) == hs + ['h'] + xs;
      assert FormatDuration(t) == mt + ['m'] + [];
      DigitsBeforeMarker(hs, xs, mt, [], 'h');
    }
  }

  lemma BothWithHours(s: nat, t: nat)
    requires FormatDuration(s) == FormatDuration(t) && Hours(s) > 0 && Hours(t) > 0
    ensures Hours(s) == Hours(t) && Minutes(s) == Minutes(t)
  {
    var hs, ms := NatToDecimal(Hours(s)), NatToDecimal(Minutes(s));
    var ht, mt := NatToDecimal(Hours(t)), NatToDecimal(Minutes(t));
    var xs, xt := " " + ms + "m", " " + mt + "m";
    assert FormatDuration(s) == hs + ['h'] + xs;
    assert FormatDuration(t) == ht + ['h'] + xt;
    DigitsBeforeMarker(hs, xs, ht, xt, 'h');
    assert ms == xs[1..|xs| - 1] && mt == xt[1..|xt| - 1];
    DecimalRoundTrip(Hours(s));
    DecimalRoundTrip(Hours(t));
    DecimalRoundTrip(Minutes(s));
    DecimalRoundTrip(Minutes(t));
  }

  lemma BothWithoutHours(s: nat, t: nat)
    requires FormatDuration(s) == FormatDuration(t) && Hours(s) == 0 && Hours(t) == 0
    ensures Minutes(s) == Minutes(t)
  {
    var ms, mt := NatToDecimal(Minutes(s)), NatToDecimal(Minutes(t));
    assert ms == (ms + "m")[..|ms|];
    assert mt == (mt + "m")[..|mt|];
    DecimalRoundTrip(Minutes(s));
    DecimalRoundTrip(Minutes(t));
  }

  /** Two digit strings each followed by the same non-digit marker split a
      string at the same place. */
  lemma DigitsBeforeMarker(a: string, x: string, b: string, y: string, c: char)
    requires AllDigits(a) && AllDigits(b) && !IsDigit(c) && c != 'm'
    requires a + [c] + x == b + [if y == [] then 'm' else c] + y
    ensures y != [] && a == b && x == y
  {
    var l := a + [c] + x;
    var k := if y == [] then 'm' else c;
    MarkerAt(a, c, x);
    MarkerAt(b, k, y);
    assert |a| == |b|;
    assert a == l[..|a|] && b == (b + [k] + y)[..|b|];
    assert x == l[|a| + 1..] && y == (b + [k] + y)[|b| + 1..];
  }

  /** In digits followed by a non-digit, the first non-digit is the marker. */
  lemma MarkerAt(a: string, c: char, x: string)
    requires AllDigits(a) && !IsDigit(c)
    ensures forall i :: 0 <= i < |a| ==> IsDigit((a + [c] + x)[i])
    ensures (a + [c] + x)[|a|] == c
  {
  }

  lemma Examples()
    ensures FormatDuration(59) == "0m"
    ensures FormatDuration(3599) == "59m"
    ensures FormatDuration(3600) == "1h 0m"
    ensures FormatDuration(3661) == "1h 1m"
  {
    assert NatToDecimal(59) == NatToDecimal(5) + [DigitChar(9)];
  }
}
