/**
  The count-to-colour mapping: a click count becomes a translucent colour
  that shifts from green to red as the count rises to 10, then stays red.
  Intensities are whole click counts, so the floating-point expressions
  floor(capped / 10 * 255) and floor(255 - capped / 10 * 255) are written
  in exact integer arithmetic; Dafny's division by a positive divisor
  rounds toward negative infinity, which is what floor does.
 */
module Colors {

  /** The channels of the colour that is formatted as rgba(r,g,b,alpha). */
  datatype Rgba = Rgba(r: int, g: int, b: int, alpha: real)

  /** The count at which the colour saturates. */
  const MaxIntensity: int := 10

  /** The fixed opacity of every dot. */
  const DotAlpha: real := 0.3

  /** The fully saturated colour: pure red. */
  const Hot: Rgba := Rgba(255, 0, 0, DotAlpha)

  /** The count, capped at MaxIntensity (the source's Math.min). */
  function Capped(intensity: int): (capped: int)
    ensures capped <= intensity && capped <= MaxIntensity
    ensures capped == intensity || capped == MaxIntensity
  {
    if intensity < MaxIntensity then intensity else MaxIntensity
  }

  function GetColor(intensity: int): (c: Rgba)
    // red and green are the floors of capped/10*255 and 255 - capped/10*255
    ensures var capped := Capped(intensity);
      && 10 * c.r <= 255 * capped < 10 * c.r + 10
      && 10 * c.g <= 2550 - 255 * capped < 10 * c.g + 10
    ensures c.b == 0 && c.alpha == DotAlpha
    ensures 0 <= intensity ==> 0 <= c.r <= 255 && 0 <= c.g <= 255
    ensures MaxIntensity <= intensity ==> c == Hot
  {
    var capped := Capped(intensity);
    Rgba(capped * 255 / 10, (2550 - capped * 255) / 10, 0, DotAlpha)
  }

  /** Below saturation red strictly rises and green strictly falls with the
      count; from MaxIntensity on, the colour no longer changes. */
  lemma ColorMonotone(m: int, n: int)
    requires m <= n
    ensures GetColor(m).r <= GetColor(n).r
    ensures GetColor(m).g >= GetColor(n).g
    ensures m < n && m < MaxIntensity ==> GetColor(m).r < GetColor(n).r && GetColor(m).g > GetColor(n).g
    ensures MaxIntensity <= m ==> GetColor(m) == GetColor(n)
  {
  }

  /** Red and green are complementary: they add up to 255 when the capped
      count is even and to 254 when it is odd (both halves round down). */
  lemma RedGreenComplement(intensity: int)
    ensures var c := GetColor(intensity);
      c.r + c.g == if Capped(intensity) % 2 == 0 then 255 else 254
  {
  }

  /** A clicked pixel has a count of at least 1, so every dot drawn for a
      click carries some red and less than full green. */
  lemma ClickedColor(intensity: int)
    requires 1 <= intensity
    ensures 25 <= GetColor(intensity).r <= 255
    ensures 0 <= GetColor(intensity).g <= 229
  {
  }
}
