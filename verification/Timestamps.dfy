/** UTC instants with microsecond precision, and the two ISO 8601 texts the service prints. */
module Timestamps {
  import opened Options
  import opened Printing

  datatype Timestamp = Timestamp(year: nat, month: nat, day: nat, hour: nat, minute: nat, second: nat, micro: nat)

  ghost predicate Valid(t: Timestamp) {
    && 1 <= t.year <= 9999 && 1 <= t.month <= 12 && 1 <= t.day <= 31
    && t.hour < 24 && t.minute < 60 && t.second < 60 && t.micro < 1000000
  }

  function Seconds(t: Timestamp): (s: string)
    ensures |s| == 19
  {
    Padded(t.year, 4) + "-" + Padded(t.month, 2) + "-" + Padded(t.day, 2) + "T" +
    Padded(t.hour, 2) + ":" + Padded(t.minute, 2) + ":" + Padded(t.second, 2)
  }

  /** isoformat(timespec="microseconds") of a UTC datetime. */
  function Iso(t: Timestamp): (s: string)
    ensures |s| == 32
  {
    Seconds(t) + "." + Padded(t.micro, 6) + "+00:00"
  }

  predicate DigitsAt(s: string, lo: nat, hi: nat)
    requires lo <= hi <= |s|
  {
    AllDigits(s[lo..hi])
  }

  function NumberAt(s: string, lo: nat, hi: nat): nat
    requires lo <= hi <= |s| && DigitsAt(s, lo, hi)
  {
    Number(s[lo..hi])
  }

  function ParseIso(s: string): Option<Timestamp> {
    if |s| != 32 || s[4] != '-' || s[7] != '-' || s[10] != 'T' || s[13] != ':' || s[16] != ':' || s[19] != '.' ||
       s[26..] != "+00:00" ||
       !(DigitsAt(s, 0, 4) && DigitsAt(s, 5, 7) && DigitsAt(s, 8, 10) && DigitsAt(s, 11, 13) &&
         DigitsAt(s, 14, 16) && DigitsAt(s, 17, 19) && DigitsAt(s, 20, 26))
    then None
    else Some(Timestamp(NumberAt(s, 0, 4), NumberAt(s, 5, 7), NumberAt(s, 8, 10), NumberAt(s, 11, 13),
                        NumberAt(s, 14, 16), NumberAt(s, 17, 19), NumberAt(s, 20, 26)))
  }

  lemma Widths()
    ensures Pow10(2) == 100 && Pow10(4) == 10000 && Pow10(6) == 1000000
  {
    assert Pow10(3) == 1000;
    assert Pow10(5) == 100000;
  }

  lemma IsoParts(t: Timestamp)
    ensures var s := Iso(t);
      && s[0..4] == Padded(t.year, 4) && s[4] == '-' && s[5..7] == Padded(t.month, 2) && s[7] == '-'
      && s[8..10] == Padded(t.day, 2) && s[10] == 'T' && s[11..13] == Padded(t.hour, 2) && s[13] == ':'
      && s[14..16] == Padded(t.minute, 2) && s[16] == ':' && s[17..19] == Padded(t.second, 2) && s[19] == '.'
      && s[20..26] == Padded(t.micro, 6) && s[26..] == "+00:00"
  {
  }

  lemma {:induction false} IsoRoundTrip(t: Timestamp)
    requires Valid(t)
    ensures ParseIso(Iso(t)) == Some(t)
  {
    IsoParts(t);
    Widths();
    PaddedRoundTrip(t.year, 4);
    PaddedRoundTrip(t.month, 2);
    PaddedRoundTrip(t.day, 2);
    PaddedRoundTrip(t.hour, 2);
    PaddedRoundTrip(t.minute, 2);
    PaddedRoundTrip(t.second, 2);
    PaddedRoundTrip(t.micro, 6);
  }

  lemma {:induction false} IsoHasNoComma(t: Timestamp)
    ensures NoComma(Iso(t))
  {
    DigitsHaveNoComma(Padded(t.year, 4));
    DigitsHaveNoComma(Padded(t.month, 2));
    DigitsHaveNoComma(Padded(t.day, 2));
    DigitsHaveNoComma(Padded(t.hour, 2));
    DigitsHaveNoComma(Padded(t.minute, 2));
    DigitsHaveNoComma(Padded(t.second, 2));
    DigitsHaveNoComma(Padded(t.micro, 6));
  }

  lemma DigitsHaveNoComma(s: string)
    requires AllDigits(s)
    ensures NoComma(s)
  {
  }

  // ---------------------------------------------------------------- inside JSON documents

  /** The JSON form: fractional seconds only when there are any, and a Z suffix. */
  function JsonText(t: Timestamp): string {
    Seconds(t) + (if t.micro == 0 then "" else "." + Padded(t.micro, 6)) + "Z"
  }

  /** The JSON text is the ISO text cut after the seconds, or after the microseconds, plus Z. */
  lemma JsonTextIsIso(t: Timestamp)
    ensures JsonText(t) == (if t.micro == 0 then Iso(t)[..19] else Iso(t)[..26]) + "Z"
  {
    assert Iso(t)[..19] == Seconds(t) && Iso(t)[..26] == Seconds(t) + ("." + Padded(t.micro, 6));
  }

  lemma JsonTextInjective(a: Timestamp, b: Timestamp)
    requires Valid(a) && Valid(b) && JsonText(a) == JsonText(b)
    ensures a == b
  {
    assert Seconds(a) == JsonText(a)[..19] == JsonText(b)[..19] == Seconds(b);
    assert |JsonText(a)| == |JsonText(b)|;
    Widths();
    PaddedRoundTrip(a.micro, 6);
    PaddedRoundTrip(b.micro, 6);
    if a.micro != 0 {
      assert Padded(a.micro, 6) == JsonText(a)[20..26] == JsonText(b)[20..26] == Padded(b.micro, 6);
    }
    IsoRoundTrip(a);
    IsoRoundTrip(b);
  }
}
