/**
  Colours in the `#rrggbb` form of the CSS hexadecimal colour notation
  (CSS Color Module Level 4, section 5.2), lowercase, as the component's
  generator writes them.
 */
module HexColor {
  import opened Wrappers
  import Radix

  /** Length of a colour string: '#' and six hex digits. */
  const ColorLength := 7

  /**
    Exclusive upper bound of the generator's integer: `_generateColor` computes
    `Math.floor(Math.random() * 16777215)`, so the largest value is 16777214
    (one less than the largest 24-bit colour).
   */
  const DrawBound := 16777215

  predicate IsHexColor(c: string) {
    |c| == ColorLength && c[0] == '#' && Radix.AllDigits(c[1..], 16)
  }

  /**
    Reference definition of the generated colour for draw `n`: `'#'`, then
    as many `'0'` as needed to reach six digits, then `n.toString(16)`.
   */
  function EncodeColor(n: nat): (c: string)
    requires n < DrawBound
    ensures IsHexColor(c)
  {
    var hex := Radix.ToString(n, 16);
    Radix.ToStringFits(n, 16, 6);
    Radix.ParseLeadingZeros(6 - |hex|, hex, 16);
    assert ("#" + Radix.Zeros(6 - |hex|) + hex)[1..] == Radix.Zeros(6 - |hex|) + hex;
    "#" + Radix.Zeros(6 - |hex|) + hex
  }

  /** The 24-bit value of a colour string, or None when it is not of the form `#rrggbb`. */
  function DecodeColor(c: string): (r: Option<nat>)
    ensures r.Some? <==> IsHexColor(c)
    ensures r.Some? ==> r.value < DrawBound + 1
  {
    if IsHexColor(c) then
      assert Radix.Pow(16, 6) == DrawBound + 1;
      Radix.ParseBound(c[1..], 16);
      Some(Radix.Parse(c[1..], 16))
    else None
  }

  /**
    `_generateColor` with the random draw made a parameter: write the draw
    in hex, then prepend '0' while the string is shorter than six, then
    prefix '#'.
   */
  method GenerateColor(n: nat) returns (c: string)
    requires n < DrawBound
    ensures c == EncodeColor(n)
    ensures DecodeColor(c) == Some(n)
  {
    var hex := Radix.ToString(n, 16);
    Radix.ToStringFits(n, 16, 6);
    var color := hex;
    while |color| < 6
      invariant |hex| <= |color| <= 6
      invariant color == Radix.Zeros(|color| - |hex|) + hex
    {
      ZerosCons(|color| - |hex|, hex);
      color := "0" + color;
    }
    c := "#" + color;
    assert c == "#" + Radix.Zeros(6 - |hex|) + hex;
    assert c == EncodeColor(n);
    DecodeEncode(n);
  }

  lemma ZerosCons(k: nat, s: string)
    ensures "0" + (Radix.Zeros(k) + s) == Radix.Zeros(k + 1) + s
  {
    assert "0" + Radix.Zeros(k) == Radix.Zeros(k + 1);
  }

  /** Decoding a generated colour gives back the draw. */
  lemma DecodeEncode(n: nat)
    requires n < DrawBound
    ensures DecodeColor(EncodeColor(n)) == Some(n)
  {
    var hex := Radix.ToString(n, 16);
    var c := EncodeColor(n);
    assert c[1..] == Radix.Zeros(6 - |hex|) + hex;
    Radix.ParseLeadingZeros(6 - |hex|, hex, 16);
    Radix.ParseToString(n, 16);
  }

  /** The string of six 'f' digits is worth 16777215, one past every draw. */
  lemma WhiteValue()
    ensures IsHexColor("#ffffff")
    ensures DecodeColor("#ffffff") == Some(DrawBound)
  {
    var w := "ffffff";
    assert "#ffffff"[1..] == w;
    assert w[..5] == "fffff" && "fffff"[..4] == "ffff" && "ffff"[..3] == "fff";
    assert "fff"[..2] == "ff" && "ff"[..1] == "f" && "f"[..0] == "";
    assert Radix.Parse("f", 16) == 15;
    assert Radix.Parse("ff", 16) == 255;
    assert Radix.Parse("fff", 16) == 4095;
    assert Radix.Parse("ffff", 16) == 65535;
    assert Radix.Parse("fffff", 16) == 1048575;
    assert Radix.Parse(w, 16) == 16777215;
  }

  /** The generator never produces white, because the largest draw is 16777214. */
  lemma {:induction false} NeverWhite(n: nat)
    requires n < DrawBound
    ensures EncodeColor(n) != "#ffffff"
  {
    DecodeEncode(n);
    WhiteValue();
  }

  /**
    Conversely, every well-formed colour other than white is generated by
    exactly the draw it decodes to.
   */
  lemma {:induction false} EncodeDecode(c: string)
    requires IsHexColor(c) && c != "#ffffff"
    ensures DecodeColor(c).Some? && DecodeColor(c).value < DrawBound
    ensures EncodeColor(DecodeColor(c).value) == c
  {
    var s := c[1..];
    var v := Radix.Parse(s, 16);
    assert DecodeColor(c) == Some(v);
    WhiteValue();
    if v == DrawBound {
      Radix.ParseInjective(s, "#ffffff"[1..], 16);
      assert false;
    }
    var e := EncodeColor(v);
    DecodeEncode(v);
    Radix.ParseInjective(e[1..], s, 16);
    assert c == "#" + s && e == "#" + e[1..];
  }
}
