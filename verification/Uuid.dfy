/**
 The canonical text of a UUID (section 4 of RFC 9562): 32 lowercase hexadecimal digits, most
 significant first, in groups 8-4-4-4-12. Sorting that text sorts the 128-bit values.
 */
module Uuid {
  import opened Lexicographic

  const DIGITS := "0123456789abcdef"

  function Pow16(width: nat): nat {
    if width == 0 then 1 else 16 * Pow16(width - 1)
  }

  /** The `width` low hexadecimal digits of `n`. */
  function Hex(n: nat, width: nat): (h: string)
    ensures |h| == width
  {
    if width == 0 then "" else Hex(n / 16, width - 1) + [DIGITS[n % 16]]
  }

  function Hyphenated(text: string, at: nat): string
    requires at <= |text|
  {
    text[..at] + "-" + text[at..]
  }

  function Text(n: nat): (t: string)
    ensures |t| == 36
  {
    Hyphenated(Hyphenated(Hyphenated(Hyphenated(Hex(n, 32), 8), 13), 18), 23)
  }

  /** 32 hexadecimal digits hold 128 bits. */
  lemma Pow16Bits()
    ensures Pow16(32) == 0x1_0000_0000_0000_0000_0000_0000_0000_0000
  {
    assert Pow16(4) == 0x1_0000;
    assert Pow16(8) == 0x1_0000_0000 by { assert Pow16(6) == 0x100_0000; }
    assert Pow16(12) == 0x1_0000_0000_0000 by { assert Pow16(10) == 0x100_0000_0000; }
    assert Pow16(16) == 0x1_0000_0000_0000_0000 by { assert Pow16(14) == 0x100_0000_0000_0000; }
    assert Pow16(20) == 0x1_0000_0000_0000_0000_0000 by { assert Pow16(18) == 0x100_0000_0000_0000_0000; }
    assert Pow16(24) == 0x1_0000_0000_0000_0000_0000_0000 by { assert Pow16(22) == 0x100_0000_0000_0000_0000_0000; }
    assert Pow16(28) == 0x1_0000_0000_0000_0000_0000_0000_0000 by { assert Pow16(26) == 0x100_0000_0000_0000_0000_0000_0000; }
    assert Pow16(30) == 0x100_0000_0000_0000_0000_0000_0000_0000;
  }

  // ---------------------------------------------------------------- reading it back

  /** The value of one lowercase hexadecimal digit. */
  function DigitValue(c: char): int {
    if '0' <= c <= '9' then c as int - '0' as int else if 'a' <= c <= 'f' then c as int - 'a' as int + 10 else 0
  }

  function HexNumber(h: string): int {
    if h == "" then 0 else 16 * HexNumber(h[..|h| - 1]) + DigitValue(h[|h| - 1])
  }

  lemma {:induction false} HexReadsBack(n: nat, width: nat)
    requires n < Pow16(width)
    ensures HexNumber(Hex(n, width)) == n
  {
    if width > 0 {
      HexReadsBack(n / 16, width - 1);
      assert Hex(n, width)[..width - 1] == Hex(n / 16, width - 1);
      assert DigitValue(DIGITS[n % 16]) == n % 16;
    }
  }

  lemma HyphenPlace(text: string, at: nat)
    requires at <= |text|
    ensures var r := Hyphenated(text, at);
      && |r| == |text| + 1 && r[at] == '-'
      && (forall i :: 0 <= i < at ==> r[i] == text[i])
      && (forall i :: at < i < |r| ==> r[i] == text[i - 1])
  {
  }

  /** Where each character of the text comes from. */
  lemma TextPlaces(n: nat)
    ensures var t, h := Text(n), Hex(n, 32);
      && t[8] == '-' && t[13] == '-' && t[18] == '-' && t[23] == '-'
      && t[..8] == h[..8] && t[9..13] == h[8..12] && t[14..18] == h[12..16] && t[19..23] == h[16..20] && t[24..] == h[20..]
  {
    var h := Hex(n, 32);
    HyphenPlace(h, 8);
    var h1 := Hyphenated(h, 8);
    HyphenPlace(h1, 13);
    var h2 := Hyphenated(h1, 13);
    HyphenPlace(h2, 18);
    HyphenPlace(Hyphenated(h2, 18), 23);
  }

  /** Hyphens after 8, 12, 16 and 20 digits; without them, the value in hexadecimal. */
  lemma {:induction false} TextReadsBack(n: nat)
    requires n < Pow16(32)
    ensures var t := Text(n);
      && t[8] == '-' && t[13] == '-' && t[18] == '-' && t[23] == '-'
      && HexNumber(t[..8] + t[9..13] + t[14..18] + t[19..23] + t[24..]) == n
  {
    var h := Hex(n, 32);
    TextPlaces(n);
    assert h == h[..8] + h[8..12] + h[12..16] + h[16..20] + h[20..];
    HexReadsBack(n, 32);
  }

  // ---------------------------------------------------------------- order

  lemma DigitsAscend(a: nat, b: nat)
    requires a < b < 16
    ensures DIGITS[a] < DIGITS[b]
  {
  }

  /** Appending one more character decides only between equal prefixes. */
  lemma {:induction false} SnocOrder(x: string, y: string, c: char, d: char)
    requires |x| == |y| && (Less(x, y) || (x == y && c < d))
    ensures Less(x + [c], y + [d])
  {
    if x != [] {
      assert (x + [c])[1..] == x[1..] + [c] && (y + [d])[1..] == y[1..] + [d];
      if x[0] == y[0] {
        SnocOrder(x[1..], y[1..], c, d);
      }
    }
  }

  lemma {:induction false} HexOrder(a: nat, b: nat, width: nat)
    requires a < b < Pow16(width)
    ensures Less(Hex(a, width), Hex(b, width))
  {
    if width > 0 {
      var x, y := Hex(a / 16, width - 1), Hex(b / 16, width - 1);
      if a / 16 < b / 16 {
        HexOrder(a / 16, b / 16, width - 1);
      } else {
        DigitsAscend(a % 16, b % 16);
      }
      SnocOrder(x, y, DIGITS[a % 16], DIGITS[b % 16]);
    }
  }

  /** A hyphen at the same place in both changes nothing. */
  lemma {:induction false} HyphenOrder(x: string, y: string, at: nat)
    requires |x| == |y| && at <= |x| && Less(x, y)
    ensures Less(Hyphenated(x, at), Hyphenated(y, at))
  {
    if at > 0 {
      assert Hyphenated(x, at)[1..] == Hyphenated(x[1..], at - 1);
      assert Hyphenated(y, at)[1..] == Hyphenated(y[1..], at - 1);
      if x[0] == y[0] {
        HyphenOrder(x[1..], y[1..], at - 1);
      }
    } else {
      assert Hyphenated(x, 0)[1..] == x && Hyphenated(y, 0)[1..] == y;
    }
  }

  lemma TextAscends(a: nat, b: nat)
    requires a < b < Pow16(32)
    ensures Less(Text(a), Text(b))
  {
    HexOrder(a, b, 32);
    HyphenOrder(Hex(a, 32), Hex(b, 32), 8);
    var a1, b1 := Hyphenated(Hex(a, 32), 8), Hyphenated(Hex(b, 32), 8);
    HyphenOrder(a1, b1, 13);
    var a2, b2 := Hyphenated(a1, 13), Hyphenated(b1, 13);
    HyphenOrder(a2, b2, 18);
    HyphenOrder(Hyphenated(a2, 18), Hyphenated(b2, 18), 23);
  }

  /** Text order is numeric order, in both directions. */
  lemma TextOrder(a: nat, b: nat)
    requires a < Pow16(32) && b < Pow16(32)
    ensures Less(Text(a), Text(b)) <==> a < b
    ensures Text(a) == Text(b) <==> a == b
  {
    Irreflexive(Text(a));
    if a < b {
      TextAscends(a, b);
    } else if b < a {
      TextAscends(b, a);
      Asymmetric(Text(b), Text(a));
    }
  }
}
