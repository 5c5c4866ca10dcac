/** Worked examples of the colour-string reader, each derived from the general
    lemmas about it. */
module ColorStringExamples {
  import opened Wrappers
  import opened JsNumber
  import opened ColorTypes
  import opened ColorConversions
  import opened AlphaConversions
  import opened ColorStrings

  /** `#fff` is white. */
  lemma ShortWhite()
    ensures StringToRgb("#fff") == Some(Rgb(255, 255, 255))
    ensures StringToAlpha("#fff") == Some(Fin(1.0))
  {
    ShorthandValue("#fff");
  }

  /** `#ffffff` is white too, with alpha 1. */
  lemma LongWhite()
    ensures StringToRgb("#ffffff") == Some(Rgb(255, 255, 255))
    ensures StringToAlpha("#ffffff") == Some(Fin(1.0))
  {
    LongHexValue("#ffffff");
  }

  /** `#ffffff80` is white with alpha 128 / 255. */
  lemma HalfTransparentWhite()
    ensures StringToRgb("#ffffff80") == Some(Rgb(255, 255, 255))
    ensures StringToAlpha("#ffffff80") == Some(Fin(128.0 / 255.0))
  {
    LongHexValue("#ffffff80");
  }

  /** `rgb(10, 20, 30)` reads as its three numbers, and its alpha is NaN, not 1. */
  lemma RgbWithoutAlpha()
    ensures StringToRgba("rgb(10, 20, 30)") == Some(Rgba(Rgb(10, 20, 30), NaN))
  {
    assert BareNotation("rgb", "10", "20", "30", "") + [] == "rgb(10, 20, 30)";
    assert DecimalValue("10") == 10;
    assert DecimalValue("20") == 20;
    assert DecimalValue("30") == 30;
    RgbBareRead("10", "20", "30", []);
  }

  /** The numbers of `rgb()` are not clamped to 255. */
  lemma RgbUnclamped()
    ensures StringToRgba("rgba(300, 0, 0, 1) trailing") == Some(Rgba(Rgb(300, 0, 0), Fin(1.0)))
  {
    UnclampedText();
    UnclampedNumbers();
    RgbNotationRead("300", "0", "0", "1", " trailing");
  }

  lemma UnclampedText()
    ensures Notation("rgb", "300", "0", "0", "", "1") + " trailing" == "rgba(300, 0, 0, 1) trailing"
  {
  }

  lemma UnclampedNumbers()
    ensures DecimalValue("300") == 300 && DecimalValue("0") == 0
    ensures IsDecimalText("1") && ParseFloat("1") == Fin(1.0)
  {
    assert "300"[..2] == "30";
    assert DecimalValue("30") == 30;
    ParseFloatOfDigits("1");
  }

  /** `hsl(0, 100%, 50%)` is pure red, converted through `hslaToRgba`. */
  lemma HslRed()
    ensures StringToRgb("hsl(0, 100%, 50%)") == Some(Rgb(255, 0, 0))
  {
    RedText();
    RedNumbers();
    HslBareRead("0", "100", "50", []);
    RedOfHsl();
  }

  lemma RedText()
    ensures BareNotation("hsl", "0", "100", "50", "%") + [] == "hsl(0, 100%, 50%)"
  {
  }

  lemma RedNumbers()
    ensures DecimalValue("0") == 0 && DecimalValue("100") == 100 && DecimalValue("50") == 50
  {
    assert "100"[..2] == "10";
    assert DecimalValue("10") == 10;
  }

  /** Hue 0, full saturation and half lightness is red. */
  lemma RedOfHsl()
    ensures RgbOfHsl(Hsl(Fin(0.0), 100.0, 50.0)) == Rgb(255, 0, 0)
  {
    assert HslQ(0.5, 1.0) == 1.0;
    assert Hsl(Fin(0.0), 100.0, 50.0) == Hsl(Fin(60.0 * 0.0), 1.0 * 100.0, 0.5 * 100.0);
    RgbOfChromaticHsl(0.0, 1.0, 0.5, 0.0, 1.0);
    ChannelTop(0.0, 1.0, 0.0 / 6.0 + 1.0 / 3.0);
    ChannelRising(0.0, 1.0, 0.0 / 6.0, 0.0);
    ChannelBottom(0.0, 1.0, 0.0 / 6.0 + -1.0 / 3.0);
    assert Scale(1.0) == 255;
    assert Scale(0.0) == 0;
    assert Scale(HueToChannel(0.0, 1.0, Fin(0.0 / 6.0 + 1.0 / 3.0))) == 255;
    assert Scale(HueToChannel(0.0, 1.0, Fin(0.0 / 6.0))) == 0;
    assert Scale(HueToChannel(0.0, 1.0, Fin(0.0 / 6.0 + -1.0 / 3.0))) == 0;
  }

  /** A text that is no colour notation at all is refused. */
  lemma NotAColor()
    ensures StringToRgb("not-a-color").None?
  {
    assert "not-a-color"[..3] == "not";
    HexAccepted("not-a-color");
  }

  /** An upper-case `RGB(...)` is refused. */
  lemma UpperCaseRgb()
    ensures StringToRgb("RGB(1, 2, 3)").None?
  {
    UpperCaseRefused("RGB(1, 2, 3)");
  }

  /** Pure red is written `rgba(255, 0, 0, 1)`, the opacity defaulting to 1. */
  lemma RedStyle(show: real -> string)
    ensures GetStyleFromRgb(Rgb(255, 0, 0), None, show) == "rgba(255, 0, 0, 1)"
  {
    assert NatText(25) == "25";
    assert NatText(255) == "255";
  }
}
