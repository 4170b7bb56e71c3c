/**
 * The colour resolver: the visual style of a block by value
 * (src/utils/colors.js). CSS strings are replaced by a small style datatype.
 */
module Colors {
  import opened Optional

  /** A cell background: a solid RGB colour, a linear gradient, or an HSL colour. */
  datatype Paint =
    | Solid(rgb: int)
    | Gradient(angle: int, stops: seq<int>)
    | Hsl(hue: int, saturation: int, lightness: int)

  /** A block outline: solid red, or black at the given opacity in hundredths. */
  datatype Border = Red | Shade(alpha: int)

  /** What `getBlockStyle` returns; `glow` stands for the optional shadow field. */
  datatype Style = Style(bg: Paint, border: Border, glow: bool)

  /** The fixed palette of the values 1 to 10. */
  function Palette(v: int): Paint
    requires 1 <= v <= 10
  {
    match v
    case 1 => Solid(0xFF0000)
    case 2 => Solid(0xFF8000)
    case 3 => Solid(0xFFFF00)
    case 4 => Solid(0x00FF00)
    case 5 => Solid(0x00FFFF)
    case 6 => Solid(0x8A2BE2)
    case 7 => Gradient(45, [0xFF0000, 0xFFFF00, 0x00FF00, 0x0000FF])
    case 8 => Solid(0xFF69B4)
    case 9 => Solid(0xC0C0C0)
    case 10 => Solid(0xFFFFFF)
  }

  /** The hue of a value above 10: 36 degrees per group of ten, wrapping at 360. */
  function Hue(v: int): int {
    (v / 10 * 36) % 360
  }

  /**
   * `getBlockStyle(value)`. Values up to 10 look up the palette, which has no
   * entry for zero or less (`undefined`, modelled as `None`); 100 is white with
   * a red border and a glow; every other value is an HSL colour whose border
   * is red on multiples of ten.
   */
  function BlockStyle(v: int): (r: Option<Style>)
    ensures r.None? <==> v <= 0
    ensures r.Some? ==> (r.value.glow <==> v == 100)
  {
    if v <= 10 then
      if v <= 0 then None
      else Some(Style(Palette(v), if v == 10 then Red else Shade(15), false))
    else if v == 100 then Some(Style(Solid(0xFFFFFF), Red, true))
    else Some(Style(Hsl(Hue(v), 85, 75), if v % 10 == 0 then Red else Shade(12), false))
  }

  /**
   * Values 1 to 10 take their background from the fixed palette, with the
   * faint black border except the red one of 10, and no glow.
   */
  lemma PaletteStyle(v: int)
    requires 1 <= v <= 10
    ensures BlockStyle(v) == Some(Style(Palette(v), if v == 10 then Red else Shade(15), false))
  {
  }

  /** Value 100 is white with a red border and the glow. */
  lemma HundredStyle()
    ensures BlockStyle(100) == Some(Style(Solid(0xFFFFFF), Red, true))
  {
  }

  /** Across the whole game range 1 to 100 the border is red exactly on the multiples of ten. */
  lemma RedBorderOnTens(v: int)
    requires 1 <= v <= 100
    ensures BlockStyle(v).Some? && (BlockStyle(v).value.border == Red <==> v % 10 == 0)
  {
  }

  /**
   * Values 11 to 99 are coloured by decade: hue `36 * floor(v/10)`, a multiple
   * of 36 in `[0, 360)`, so values in the same decade share a hue and later
   * decades have larger hues.
   */
  lemma DecadeHue(v: int, u: int)
    requires 11 <= v <= 99 && 11 <= u <= 99
    ensures BlockStyle(v) == Some(Style(Hsl(Hue(v), 85, 75), if v % 10 == 0 then Red else Shade(12), false))
    ensures 0 <= Hue(v) < 360 && Hue(v) % 36 == 0 && Hue(v) == v / 10 * 36
    ensures v / 10 < u / 10 ==> Hue(v) < Hue(u)
    ensures v / 10 == u / 10 ==> Hue(v) == Hue(u)
  {
  }
}
