/**
 * Hex-colour darkening used for overlap highlighting (`Visualizer._darken_color`
 * in server/utils/visualization.py). The operation never fails: anything it
 * cannot parse yields the neutral grey "#808080".
 *
 * The multiplier is a `real`; the renderer always passes 0.65.
 */
module HexColor {
  import opened Wrappers

  const Fallback: string := "#808080"

  /** The factor the renderer darkens overlapping regions by. */
  const OverlapAmount: real := 0.65

  datatype Rgb = Rgb(red: int, green: int, blue: int)

  /** Value of one hexadecimal digit (either case), as `int(_, 16)` reads it. */
  function HexDigitValue(c: char): (r: Option<nat>)
    ensures r.Some? ==> r.value < 16
  {
    if '0' <= c <= '9' then Some(c as int - '0' as int)
    else if 'a' <= c <= 'f' then Some(c as int - 'a' as int + 10)
    else if 'A' <= c <= 'F' then Some(c as int - 'A' as int + 10)
    else None
  }

  predicate IsLowerHexDigit(c: char)
  {
    '0' <= c <= '9' || 'a' <= c <= 'f'
  }

  /** `s.lstrip("#")`: every leading '#' removed. */
  function StripHashes(s: string): (r: string)
    ensures |r| <= |s| && r == s[|s| - |r|..]
    ensures r == [] || r[0] != '#'
    ensures forall i :: 0 <= i < |s| - |r| ==> s[i] == '#'
  {
    if s != [] && s[0] == '#' then StripHashes(s[1..]) else s
  }

  /** Each character written twice: "abc" becomes "aabbcc". */
  function Doubled(s: string): (r: string)
    ensures |r| == 2 * |s|
    ensures forall i :: 0 <= i < |s| ==> r[2 * i] == s[i] && r[2 * i + 1] == s[i]
  {
    if s == [] then [] else [s[0], s[0]] + Doubled(s[1..])
  }

  /** The six digits the parser reads: the stripped text itself, or its 3-digit shorthand expanded. */
  function SixDigits(hex: string): (r: Option<string>)
    ensures r.Some? ==> |r.value| == 6
    ensures r.Some? <==> |StripHashes(hex)| in {3, 6}
  {
    var h := StripHashes(hex);
    if |h| == 6 then Some(h)
    else if |h| == 3 then Some(Doubled(h))
    else None
  }

  /** `int(s[i:i+2], 16)` restricted to two hexadecimal digits. */
  function ParsePair(s: string, i: nat): (r: Option<nat>)
    requires i + 2 <= |s|
    ensures r.Some? ==> r.value < 256
  {
    match (HexDigitValue(s[i]), HexDigitValue(s[i + 1]))
    case (Some(hi), Some(lo)) => Some(16 * hi + lo)
    case _ => None
  }

  /** The three channels read from six digits, two at a time. */
  function ParseSix(h: string): (r: Option<Rgb>)
    requires |h| == 6
    ensures r.Some? ==> 0 <= r.value.red < 256 && 0 <= r.value.green < 256 && 0 <= r.value.blue < 256
  {
    var red, green, blue := ParsePair(h, 0), ParsePair(h, 2), ParsePair(h, 4);
    if red.Some? && green.Some? && blue.Some? then Some(Rgb(red.value, green.value, blue.value)) else None
  }

  /** The three channels of a colour, or None where `_darken_color` would raise internally. */
  function ParseRgb(hex: string): (r: Option<Rgb>)
    ensures r.Some? ==> 0 <= r.value.red < 256 && 0 <= r.value.green < 256 && 0 <= r.value.blue < 256
  {
    var six := SixDigits(hex);
    if six.Some? then ParseSix(six.value) else None
  }

  /** A single leading '#' before a character that is not one is all `lstrip` removes. */
  lemma StripOneHash(s: string)
    requires |s| >= 2 && s[0] == '#' && s[1] != '#'
    ensures StripHashes(s) == s[1..]
  {
    assert StripHashes(s) == StripHashes(s[1..]);
  }

  /** '#' followed by six hexadecimal digits of either case. */
  predicate SixDigitHex(s: string)
  {
    |s| == 7 && s[0] == '#' && forall i :: 1 <= i < 7 ==> HexDigitValue(s[i]).Some?
  }

  lemma SixDigitHexParses(s: string)
    requires SixDigitHex(s)
    ensures ParseRgb(s).Some?
  {
    var h := s[1..];
    assert HexDigitValue(s[1]).Some?;
    StripOneHash(s);
    assert SixDigits(s) == Some(h);
    assert h[0] == s[1] && h[1] == s[2] && h[2] == s[3] && h[3] == s[4] && h[4] == s[5] && h[5] == s[6];
    assert HexDigitValue(s[1]).Some? && HexDigitValue(s[2]).Some? && HexDigitValue(s[3]).Some?;
    assert HexDigitValue(s[4]).Some? && HexDigitValue(s[5]).Some? && HexDigitValue(s[6]).Some?;
    assert ParseSix(h).Some?;
  }

  /** `max(0, int(c * amount))`. */
  function Scale(c: int, amount: real): (r: int)
    ensures r >= 0
  {
    var v := (c as real * amount).Floor;
    if v < 0 then 0 else v
  }

  function LowerHexDigit(d: nat): (c: char)
    requires d < 16
    ensures IsLowerHexDigit(c)
    ensures HexDigitValue(c) == Some(d)
  {
    if d < 10 then ('0' as int + d) as char else ('a' as int + d - 10) as char
  }

  /** Lower-case hexadecimal without leading zeros (at least one digit). */
  function NatToHex(n: nat): (r: string)
    ensures |r| >= 1
    ensures forall i :: 0 <= i < |r| ==> IsLowerHexDigit(r[i])
  {
    if n < 16 then [LowerHexDigit(n)] else NatToHex(n / 16) + [LowerHexDigit(n % 16)]
  }

  /** `"{:02x}".format(n)`: lower-case hexadecimal padded to at least two digits. */
  function Hex2(n: nat): (r: string)
    ensures |r| >= 2
    ensures n < 256 ==> |r| == 2
    ensures forall i :: 0 <= i < |r| ==> IsLowerHexDigit(r[i])
  {
    if n < 16 then ['0', LowerHexDigit(n)]
    else
      assert n < 256 ==> NatToHex(n / 16) == [LowerHexDigit(n / 16)];
      NatToHex(n)
  }

  function RgbToHex(c: Rgb): string
    requires c.red >= 0 && c.green >= 0 && c.blue >= 0
  {
    "#" + Hex2(c.red) + Hex2(c.green) + Hex2(c.blue)
  }

  /** `Visualizer._darken_color(hex, amount)`. */
  function DarkenColor(hex: string, amount: real): (r: string)
    ensures ParseRgb(hex).None? ==> r == Fallback
  {
    match ParseRgb(hex)
    case None => Fallback
    case Some(c) => RgbToHex(Rgb(Scale(c.red, amount), Scale(c.green, amount), Scale(c.blue, amount)))
  }

  /** Scaling by a factor in [0, 1] never makes a channel grow nor leave 0..255. */
  lemma ScaleBounds(c: int, amount: real)
    requires 0 <= c < 256 && 0.0 <= amount <= 1.0
    ensures 0 <= Scale(c, amount) <= c
  {
    assert c as real * amount <= c as real * 1.0;
  }

  /** Reading back two digits written by `Hex2` gives the channel again. */
  lemma Hex2RoundTrip(n: nat, s: string, i: nat)
    requires n < 256 && i + 2 <= |s| && s[i..i + 2] == Hex2(n)
    ensures ParsePair(s, i) == Some(n)
  {
    assert s[i] == Hex2(n)[0] && s[i + 1] == Hex2(n)[1];
    if n >= 16 {
      assert NatToHex(n) == NatToHex(n / 16) + [LowerHexDigit(n % 16)];
      assert NatToHex(n / 16) == [LowerHexDigit(n / 16)];
    }
  }

  /** A six-digit lower-case colour parses back into the channels it was written from. */
  lemma RgbToHexRoundTrip(c: Rgb)
    requires 0 <= c.red < 256 && 0 <= c.green < 256 && 0 <= c.blue < 256
    ensures ParseRgb(RgbToHex(c)) == Some(c)
  {
    var h := Hex2(c.red) + Hex2(c.green) + Hex2(c.blue);
    ChannelsRoundTrip(c);
    var s := "#" + h;
    assert s == RgbToHex(c);
    assert s[1..] == h;
    assert s[1] != '#' by { assert s[1] == h[0] && IsLowerHexDigit(h[0]); }
    StripOneHash(s);
    assert SixDigits(s) == Some(h);
  }

  /** The six digits written for a colour read back as that colour. */
  lemma ChannelsRoundTrip(c: Rgb)
    requires 0 <= c.red < 256 && 0 <= c.green < 256 && 0 <= c.blue < 256
    ensures var h := Hex2(c.red) + Hex2(c.green) + Hex2(c.blue);
      |h| == 6 && IsLowerHexDigit(h[0]) && ParseSix(h) == Some(c)
  {
    var x, y, z := Hex2(c.red), Hex2(c.green), Hex2(c.blue);
    var h := x + y + z;
    ThreePairs(x, y, z);
    Hex2RoundTrip(c.red, h, 0);
    Hex2RoundTrip(c.green, h, 2);
    Hex2RoundTrip(c.blue, h, 4);
  }

  lemma ThreePairs(x: string, y: string, z: string)
    requires |x| == 2 && |y| == 2 && |z| == 2
    ensures var h := x + y + z; |h| == 6 && h[0] == x[0] && h[0..2] == x && h[2..4] == y && h[4..6] == z
  {
  }

  /** For a parsable colour and a factor in [0, 1] the result is '#' and six lower-case hex digits. */
  lemma DarkenFormat(hex: string, amount: real)
    requires ParseRgb(hex).Some? && 0.0 <= amount <= 1.0
    ensures var r := DarkenColor(hex, amount);
      |r| == 7 && r[0] == '#' && forall i :: 1 <= i < 7 ==> IsLowerHexDigit(r[i])
  {
    var c := ParseRgb(hex).value;
    ScaleBounds(c.red, amount);
    ScaleBounds(c.green, amount);
    ScaleBounds(c.blue, amount);
    var x, y, z := Hex2(Scale(c.red, amount)), Hex2(Scale(c.green, amount)), Hex2(Scale(c.blue, amount));
    var r := DarkenColor(hex, amount);
    assert r == "#" + x + y + z;
    forall i | 1 <= i < 7 ensures IsLowerHexDigit(r[i]) {
      if i < 3 { assert r[i] == x[i - 1]; }
      else if i < 5 { assert r[i] == y[i - 3]; }
      else { assert r[i] == z[i - 5]; }
    }
  }

  /**
   * On a parsable colour and a factor in [0, 1] the result is the colour whose
   * channels are `max(0, floor(c * amount))`, none of them larger than before.
   */
  lemma DarkenChannels(hex: string, amount: real)
    requires ParseRgb(hex).Some? && 0.0 <= amount <= 1.0
    ensures var c := ParseRgb(hex).value;
      && ParseRgb(DarkenColor(hex, amount)) == Some(Rgb(Scale(c.red, amount), Scale(c.green, amount), Scale(c.blue, amount)))
      && Scale(c.red, amount) <= c.red && Scale(c.green, amount) <= c.green && Scale(c.blue, amount) <= c.blue
  {
    var c := ParseRgb(hex).value;
    ScaleBounds(c.red, amount);
    ScaleBounds(c.green, amount);
    ScaleBounds(c.blue, amount);
    RgbToHexRoundTrip(Rgb(Scale(c.red, amount), Scale(c.green, amount), Scale(c.blue, amount)));
  }

  /** Darkening by 1 keeps the colour: only case and shorthand are normalised. */
  lemma DarkenByOneKeepsColour(hex: string)
    requires ParseRgb(hex).Some?
    ensures ParseRgb(DarkenColor(hex, 1.0)) == ParseRgb(hex)
  {
    var c := ParseRgb(hex).value;
    assert Scale(c.red, 1.0) == c.red && Scale(c.green, 1.0) == c.green && Scale(c.blue, 1.0) == c.blue;
    DarkenChannels(hex, 1.0);
  }

  /** The 3-digit shorthand denotes the same colour as its doubled 6-digit form. */
  lemma ShorthandExpands(d: string)
    requires |d| == 3 && d[0] != '#'
    ensures ParseRgb(d) == ParseRgb(Doubled(d))
    ensures ParseRgb("#" + d) == ParseRgb(d)
  {
    assert StripHashes(d) == d;
    var dd := Doubled(d);
    assert dd[0] == d[0];
    assert StripHashes(dd) == dd;
    assert StripHashes("#" + d) == StripHashes(d) by { assert ("#" + d)[1..] == d; }
  }
}
