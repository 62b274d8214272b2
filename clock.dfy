/**
 * Times of day as the application writes them: zero-padded `HH:MM:SS`
 * strings, compared with JavaScript's string order. The main fact here is
 * that this string order agrees with the numeric order of the times.
 */
module Clock {

  /** A wall-clock second of the day, 00:00:00 .. 23:59:59. */
  type SecondOfDay = t: nat | t < 86400

  /** A wall-clock minute of the day, 00:00 .. 23:59. */
  type MinuteOfDay = t: nat | t < 1440

  /**
   * JavaScript's `a <= b` on strings: the first differing character decides,
   * and a prefix is never greater than the string it prefixes.
   */
  predicate LexLe(a: string, b: string): (r: bool)
    decreases |a|
    ensures r <==> a <= b || exists k :: 0 <= k < |a| && k < |b| && a[..k] == b[..k] && a[k] < b[k]
  {
    if |a| == 0 then true
    else if |b| == 0 then false
    else if a[0] < b[0] then
      assert a[..0] == b[..0];
      true
    else if a[0] != b[0] then
      assert forall k :: 0 < k < |a| && k < |b| ==> a[..k][0] == a[0] && b[..k][0] == b[0];
      false
    else
      var r := LexLe(a[1..], b[1..]);
      assert a <= b <==> a[1..] <= b[1..];
      assert r && !(a[1..] <= b[1..]) ==> exists k :: 0 <= k < |a| && k < |b| && a[..k] == b[..k] && a[k] < b[k] by {
        if r && !(a[1..] <= b[1..]) {
          var k :| 0 <= k < |a[1..]| && k < |b[1..]| && a[1..][..k] == b[1..][..k] && a[1..][k] < b[1..][k];
          assert a[..k + 1] == [a[0]] + a[1..][..k];
          assert b[..k + 1] == [b[0]] + b[1..][..k];
        }
      }
      assert !r ==> forall k :: 0 <= k < |a| && k < |b| && a[..k] == b[..k] ==> !(a[k] < b[k]) by {
        if !r {
          forall k | 0 <= k < |a| && k < |b| && a[..k] == b[..k] ensures !(a[k] < b[k]) {
            if k > 0 {
              assert a[1..][..k - 1] == a[..k][1..] && b[1..][..k - 1] == b[..k][1..];
              assert a[1..][k - 1] == a[k];
            }
          }
        }
      }
      r
  }

  /** JavaScript's `a < b` on strings: exactly when `b <= a` fails. */
  predicate LexLt(a: string, b: string): (r: bool)
    ensures r <==> !LexLe(b, a)
  {
    LexLeTotal(a, b);
    LexLeAntisymmetric(a, b);
    LexLe(a, b) && a != b
  }

  /** Two non-empty strings compare by their first characters, then by the rest. */
  lemma LexLeFirst(a: string, b: string)
    requires |a| > 0 && |b| > 0
    ensures LexLe(a, b) <==> a[0] < b[0] || (a[0] == b[0] && LexLe(a[1..], b[1..]))
  {
  }

  /** Any two strings are comparable. */
  lemma {:induction false} LexLeTotal(a: string, b: string)
    ensures LexLe(a, b) || LexLe(b, a)
    decreases |a|
  {
    if |a| > 0 && |b| > 0 && a[0] == b[0] {
      LexLeTotal(a[1..], b[1..]);
    }
  }

  /** Strings that are each `<=` the other are equal. */
  lemma {:induction false} LexLeAntisymmetric(a: string, b: string)
    ensures LexLe(a, b) && LexLe(b, a) ==> a == b
    decreases |a|
  {
    if |a| > 0 && |b| > 0 && a[0] == b[0] {
      LexLeAntisymmetric(a[1..], b[1..]);
      assert a == [a[0]] + a[1..] && b == [b[0]] + b[1..];
    }
  }

  predicate IsDigit(c: char)
  {
    '0' <= c <= '9'
  }

  function DigitValue(c: char): nat
    requires IsDigit(c)
  {
    c as int - '0' as int
  }

  function DigitChar(d: nat): (c: char)
    requires d < 10
    ensures IsDigit(c) && DigitValue(c) == d
  {
    ('0' as int + d) as char
  }

  /** A number below 100 as two decimal digits: `7` becomes `"07"`. */
  function Pad2(n: nat): (s: string)
    requires n < 100
    ensures |s| == 2 && IsDigit(s[0]) && IsDigit(s[1])
    ensures 10 * DigitValue(s[0]) + DigitValue(s[1]) == n
  {
    [DigitChar(n / 10), DigitChar(n % 10)]
  }

  /** `HH:MM:SS` from its three fields. */
  function Hms(h: nat, m: nat, s: nat): string
    requires h < 100 && m < 100 && s < 100
  {
    Pad2(h) + ([':'] + (Pad2(m) + ([':'] + Pad2(s))))
  }

  /** The number the two digits `s[i]`, `s[i+1]` stand for. */
  function Field(s: string, i: nat): nat
    requires i + 2 <= |s| && IsDigit(s[i]) && IsDigit(s[i + 1])
  {
    10 * DigitValue(s[i]) + DigitValue(s[i + 1])
  }

  /**
   * A string that starts `DD:DD` and, if longer, goes on with `:`; for such a
   * string `Number(s.split(":")[0])` and `Number(s.split(":")[1])` are the
   * two leading two-digit fields.
   */
  predicate IsClockPrefix(s: string)
  {
    |s| >= 5 && IsDigit(s[0]) && IsDigit(s[1]) && s[2] == ':' && IsDigit(s[3]) && IsDigit(s[4])
    && (|s| > 5 ==> s[5] == ':')
  }

  function HourField(s: string): nat
    requires IsClockPrefix(s)
  {
    Field(s, 0)
  }

  function MinuteField(s: string): nat
    requires IsClockPrefix(s)
  {
    Field(s, 3)
  }

  /** A well-formed, zero-padded `HH:MM:SS` time of day. */
  predicate IsHms(s: string)
  {
    IsClockPrefix(s) && |s| == 8 && IsDigit(s[6]) && IsDigit(s[7])
    && HourField(s) < 24 && MinuteField(s) < 60 && Field(s, 6) < 60
  }

  /** The second of the day a well-formed `HH:MM:SS` string denotes. */
  function SecondsOf(s: string): SecondOfDay
    requires IsHms(s)
  {
    HourField(s) * 3600 + MinuteField(s) * 60 + Field(s, 6)
  }

  /** dayjs' `format("HH:mm:ss")` of a wall-clock second of the day. */
  function FormatTime(t: SecondOfDay): (r: string)
    ensures IsHms(r) && SecondsOf(r) == t
  {
    SplitSeconds(t);
    Hms(t / 3600, t / 60 % 60, t % 60)
  }

  /** A second of the day is hours, minutes and seconds in mixed radix. */
  lemma SplitSeconds(t: SecondOfDay)
    ensures t / 3600 < 24 && t / 60 % 60 < 60 && t % 60 < 60
    ensures t == (t / 3600) * 3600 + (t / 60 % 60) * 60 + t % 60
  {
    var q := t / 60;
    assert t == q * 60 + t % 60;
    assert q == (q / 60) * 60 + q % 60;
    assert q / 60 == t / 3600;
  }

  /** The fields of `h*3600 + m*60 + s` are `h`, `m` and `s`. */
  lemma JoinSeconds(h: nat, m: nat, s: nat)
    requires h < 24 && m < 60 && s < 60
    ensures (h * 3600 + m * 60 + s) / 3600 == h
    ensures (h * 3600 + m * 60 + s) / 60 % 60 == m
    ensures (h * 3600 + m * 60 + s) % 60 == s
  {
    var t := h * 3600 + m * 60 + s;
    assert t / 60 == h * 60 + m;
  }

  /**
   * Comparing two strings whose first parts have the same length: the first
   * parts decide unless they are equal, and then the rest decide.
   */
  lemma {:induction false} LexLeAppend(a1: string, a2: string, b1: string, b2: string)
    requires |a1| == |b1|
    ensures LexLe(a1 + a2, b1 + b2) <==> LexLt(a1, b1) || (a1 == b1 && LexLe(a2, b2))
    decreases |a1|
  {
    if |a1| == 0 {
      assert a1 + a2 == a2 && b1 + b2 == b2;
    } else {
      assert (a1 + a2)[0] == a1[0] && (b1 + b2)[0] == b1[0];
      assert (a1 + a2)[1..] == a1[1..] + a2;
      assert (b1 + b2)[1..] == b1[1..] + b2;
      LexLeFirst(a1 + a2, b1 + b2);
      LexLeFirst(a1, b1);
      LexLeAppend(a1[1..], a2, b1[1..], b2);
      assert a1 == [a1[0]] + a1[1..] && b1 == [b1[0]] + b1[1..];
    }
  }

  /** Two-digit fields compare as the numbers they stand for. */
  lemma Pad2Order(x: nat, y: nat)
    requires x < 100 && y < 100
    ensures LexLe(Pad2(x), Pad2(y)) <==> x <= y
    ensures Pad2(x) == Pad2(y) <==> x == y
  {
    var a, b := Pad2(x), Pad2(y);
    assert LexLe(a[1..][1..], b[1..][1..]);
    assert LexLe(a[1..], b[1..]) <==> a[1] <= b[1];
    assert x == 10 * (x / 10) + x % 10 && y == 10 * (y / 10) + y % 10;
    assert a == b <==> a[0] == b[0] && a[1] == b[1];
  }

  /** `HH:MM:SS` strings compare field by field, hours first. */
  lemma HmsOrder(h1: nat, m1: nat, s1: nat, h2: nat, m2: nat, s2: nat)
    requires h1 < 100 && m1 < 100 && s1 < 100 && h2 < 100 && m2 < 100 && s2 < 100
    ensures LexLe(Hms(h1, m1, s1), Hms(h2, m2, s2))
            <==> h1 < h2 || (h1 == h2 && (m1 < m2 || (m1 == m2 && s1 <= s2)))
  {
    var colon: string := [':'];
    var tail1, tail2 := colon + Pad2(s1), colon + Pad2(s2);
    var rest1, rest2 := colon + (Pad2(m1) + tail1), colon + (Pad2(m2) + tail2);
    Pad2Order(h1, h2);
    Pad2Order(m1, m2);
    Pad2Order(s1, s2);
    LexLeAppend(colon, Pad2(s1), colon, Pad2(s2));
    LexLeAppend(Pad2(m1), tail1, Pad2(m2), tail2);
    LexLeAppend(colon, Pad2(m1) + tail1, colon, Pad2(m2) + tail2);
    LexLeAppend(Pad2(h1), rest1, Pad2(h2), rest2);
  }

  /** Formatted seconds of the day compare as the seconds themselves. */
  lemma FormatTimeOrder(x: SecondOfDay, y: SecondOfDay)
    ensures LexLe(FormatTime(x), FormatTime(y)) <==> x <= y
  {
    SplitSeconds(x);
    SplitSeconds(y);
    HmsOrder(x / 3600, x / 60 % 60, x % 60, y / 3600, y / 60 % 60, y % 60);
  }

  /** The seconds of the time a well-formed `HH:MM:SS` string denotes are its last field. */
  lemma SecondsOfField(s: string)
    requires IsHms(s)
    ensures SecondsOf(s) % 60 == Field(s, 6)
  {
    JoinSeconds(HourField(s), MinuteField(s), Field(s, 6));
  }

  /** Parsing a well-formed `HH:MM:SS` string and formatting it again gives it back. */
  lemma FormatSecondsOf(s: string)
    requires IsHms(s)
    ensures FormatTime(SecondsOf(s)) == s
  {
    var h, m, sec := HourField(s), MinuteField(s), Field(s, 6);
    JoinSeconds(h, m, sec);
    Pad2Digits(s, 0);
    Pad2Digits(s, 3);
    Pad2Digits(s, 6);
    assert s == s[0..2] + ([':'] + (s[3..5] + ([':'] + s[6..8])));
  }

  /** Formatting a two-digit field gives back its digits. */
  lemma Pad2Digits(s: string, i: nat)
    requires i + 2 <= |s| && IsDigit(s[i]) && IsDigit(s[i + 1])
    ensures Pad2(Field(s, i)) == s[i..i + 2]
  {
    var n := Field(s, i);
    assert n / 10 == DigitValue(s[i]) && n % 10 == DigitValue(s[i + 1]);
  }

  /**
   * On well-formed `HH:MM:SS` strings, JavaScript's string order is the
   * numeric order of the times they denote, both non-strict and strict.
   */
  lemma LexOrderIsTimeOrder(a: string, b: string)
    requires IsHms(a) && IsHms(b)
    ensures LexLe(a, b) <==> SecondsOf(a) <= SecondsOf(b)
    ensures LexLt(a, b) <==> SecondsOf(a) < SecondsOf(b)
  {
    var x, y := SecondsOf(a), SecondsOf(b);
    FormatSecondsOf(a);
    FormatSecondsOf(b);
    FormatTimeOrder(x, y);
    assert a == b <==> x == y;
  }
}
