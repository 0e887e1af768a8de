/** `ThemeJs.hexToRgb` and the colour test that `ApplyTheme` puts in front of it. */
module Color {
  import opened Text

  predicate IsHexDigit(c: char)
  {
    '0' <= c <= '9' || 'a' <= c <= 'f' || 'A' <= c <= 'F'
  }

  predicate AllHex(s: string) { forall i :: 0 <= i < |s| ==> IsHexDigit(s[i]) }

  function HexDigitValue(c: char): (d: nat)
    requires IsHexDigit(c)
    ensures d < 16
  {
    if '0' <= c <= '9' then c as int - '0' as int
    else if 'a' <= c <= 'f' then c as int - 'a' as int + 10
    else c as int - 'A' as int + 10
  }

  /** `/^#[0-9A-F]{6}$/i`: a `#` followed by exactly six hexadecimal digits, in either case. */
  predicate IsHexColor(s: string)
  {
    |s| == 7 && s[0] == '#' && AllHex(s[1..])
  }

  function Pow16(n: nat): (p: nat)
    ensures p >= 1
  {
    if n == 0 then 1 else 16 * Pow16(n - 1)
  }

  /** `parseInt(s, 16)` for a string of hexadecimal digits: a value below 16 to the length. */
  function HexValue(s: string): (v: nat)
    requires AllHex(s)
    ensures v < Pow16(|s|)
  {
    if s == [] then 0 else HexValue(s[..|s| - 1]) * 16 + HexDigitValue(s[|s| - 1])
  }

  lemma AllHexConcat(a: string, b: string)
    requires AllHex(a) && AllHex(b)
    ensures AllHex(a + b)
  {
    var ab := a + b;
    forall k | 0 <= k < |ab|
      ensures IsHexDigit(ab[k])
    {
      if k < |a| { assert ab[k] == a[k]; } else { assert ab[k] == b[k - |a|]; }
    }
  }

  lemma ShiftByDigit(x: int, p: int, y: int, d: int)
    ensures (x * p + y) * 16 + d == x * (16 * p) + (y * 16 + d)
  {
    assert (x * p) * 16 == x * (p * 16);
  }

  /** Reading the digits of `a` and then those of `b` shifts `a`'s value by `b`'s length. */
  lemma {:induction false} HexValueConcat(a: string, b: string)
    requires AllHex(a) && AllHex(b)
    ensures AllHex(a + b)
    ensures HexValue(a + b) == HexValue(a) * Pow16(|b|) + HexValue(b)
    decreases |b|
  {
    AllHexConcat(a, b);
    var ab := a + b;
    if b == [] {
      assert ab == a;
    } else {
      var b' := b[..|b| - 1];
      assert ab[..|ab| - 1] == a + b';
      HexValueConcat(a, b');
      var d := HexDigitValue(b[|b| - 1]);
      assert HexValue(ab) == HexValue(a + b') * 16 + d;
      assert HexValue(b) == HexValue(b') * 16 + d;
      ShiftByDigit(HexValue(a), Pow16(|b'|), HexValue(b'), d);
    }
  }

  /** Six hexadecimal digits are three two-digit bytes, most significant first. */
  lemma HexPairs(h: string)
    requires |h| == 6 && AllHex(h)
    ensures HexValue(h[..2]) < 256 && HexValue(h[2..4]) < 256 && HexValue(h[4..]) < 256
    ensures HexValue(h) == HexValue(h[..2]) * 0x1_0000 + HexValue(h[2..4]) * 0x100 + HexValue(h[4..])
  {
    assert Pow16(2) == 256;
    assert Pow16(4) == 0x1_0000;
    assert h[2..] == h[2..4] + h[4..];
    HexValueConcat(h[2..4], h[4..]);
    assert h == h[..2] + h[2..];
    HexValueConcat(h[..2], h[2..]);
  }

  /** The bytes that `DataView.setUint32(0, v, false)` stores, read back through a
      `Uint8Array`: `v` is reduced to 32 bits and laid out most significant byte first. */
  function Uint32Bytes(v: nat): (b: seq<nat>)
    ensures |b| == 4
    ensures forall i :: 0 <= i < 4 ==> b[i] < 256
    ensures b[0] * 0x100_0000 + b[1] * 0x1_0000 + b[2] * 0x100 + b[3] == v % 0x1_0000_0000
  {
    var u := v % 0x1_0000_0000;
    var low := u % 0x100;
    var rest := u / 0x100;
    var third := rest % 0x100;
    var top := rest / 0x100;
    [top / 0x100, top % 0x100, third, low]
  }

  /** `hexToRgb(hex)`: the last three of those bytes in decimal, joined by commas. */
  function HexToRgb(hex: string): (rgb: string)
    requires IsHexColor(hex)
  {
    var bytes := Uint32Bytes(HexValue(hex[1..]));
    NatToString(bytes[1]) + "," + NatToString(bytes[2]) + "," + NatToString(bytes[3])
  }

  /** Dividing by 256 takes a low byte off. */
  lemma ByteSplit(q: int, r: int)
    requires 0 <= r < 0x100
    ensures (q * 0x100 + r) / 0x100 == q && (q * 0x100 + r) % 0x100 == r
  {
  }

  /** For a colour `#RRGGBB` with value `v`, the stored bytes are 0, `v / 65536`,
      `v / 256 % 256` and `v % 256`, and these are the values of the pairs RR, GG and BB. */
  lemma HexColorBytes(hex: string)
    requires IsHexColor(hex)
    ensures var v := HexValue(hex[1..]);
            var b := Uint32Bytes(v);
            && v < 0x100_0000
            && b[0] == 0
            && b[1] == v / 0x1_0000 == HexValue(hex[1..3])
            && b[2] == v / 0x100 % 0x100 == HexValue(hex[3..5])
            && b[3] == v % 0x100 == HexValue(hex[5..7])
            && b[1] * 0x1_0000 + b[2] * 0x100 + b[3] == v
  {
    var h := hex[1..];
    HexPairs(h);
    assert h[..2] == hex[1..3] && h[2..4] == hex[3..5] && h[4..] == hex[5..7];
    var r, g, bl := HexValue(hex[1..3]), HexValue(hex[3..5]), HexValue(hex[5..7]);
    var v := HexValue(h);
    var rg := r * 0x100 + g;
    assert v == rg * 0x100 + bl;
    ByteSplit(rg, bl);
    ByteSplit(r, g);
    ByteSplit(0, r);
    assert v < 0x100_0000;
    assert v % 0x1_0000_0000 == v;
    assert v / 0x1_0000 == v / 0x100 / 0x100;
  }

  /** The result is three decimal numbers separated by single commas. */
  lemma HexToRgbPieces(hex: string)
    requires IsHexColor(hex)
    ensures var b := Uint32Bytes(HexValue(hex[1..]));
            Split(HexToRgb(hex), ',') == [NatToString(b[1]), NatToString(b[2]), NatToString(b[3])]
  {
    var b := Uint32Bytes(HexValue(hex[1..]));
    var r, g, bl := NatToString(b[1]), NatToString(b[2]), NatToString(b[3]);
    DigitsExclude(r, ',');
    DigitsExclude(g, ',');
    DigitsExclude(bl, ',');
    assert HexToRgb(hex) == r + [','] + (g + [','] + bl);
    SplitAt(r, ',', g + [','] + bl);
    SplitAt(g, ',', bl);
    SplitWithout(bl, ',');
  }

  /** Splitting the result at its commas and reading each piece as a decimal number gives back
      the three colour bytes RR, GG and BB. */
  lemma HexToRgbRoundTrip(hex: string)
    requires IsHexColor(hex)
    ensures var parts := Split(HexToRgb(hex), ',');
            && |parts| == 3
            && ParseNat(parts[0]) == Some(HexValue(hex[1..3]))
            && ParseNat(parts[1]) == Some(HexValue(hex[3..5]))
            && ParseNat(parts[2]) == Some(HexValue(hex[5..7]))
  {
    HexToRgbPieces(hex);
    HexColorBytes(hex);
    var b := Uint32Bytes(HexValue(hex[1..]));
    ParseNatToString(b[1]);
    ParseNatToString(b[2]);
    ParseNatToString(b[3]);
  }

  lemma RedDigits()
    ensures IsHexColor("#FF0000")
    ensures "#FF0000"[1..3] == "FF" && "#FF0000"[3..5] == "00" && "#FF0000"[5..7] == "00"
  {
    var hex := "#FF0000";
    forall k | 0 <= k < 6 ensures IsHexDigit(hex[1..][k]) { }
  }

  lemma RedPairs()
    ensures AllHex("FF") && HexValue("FF") == 255
    ensures AllHex("00") && HexValue("00") == 0
  {
    assert "FF"[..1] == "F" && "F"[..0] == [];
    assert "00"[..1] == "0" && "0"[..0] == [];
  }

  /** The decimal text of the bytes of "#FF0000". */
  lemma RedText()
    ensures NatToString(255) + "," + NatToString(0) + "," + NatToString(0) == "255,0,0"
  {
    assert NatToString(25) == "25";
    assert NatToString(255) == "255";
  }

  /** `hexToRgb("#FF0000")` is "255,0,0". */
  lemma HexToRgbRed()
    ensures IsHexColor("#FF0000") && HexToRgb("#FF0000") == "255,0,0"
  {
    RedDigits();
    HexColorBytes("#FF0000");
    RedPairs();
    RedText();
  }
}
