/** RGBA colours as the overlay builds them. */
module Colors {

  /** One 8-bit colour channel; the colour constructor refuses anything else. */
  type Channel = c: int | 0 <= c <= 255

  datatype Color = Color(red: Channel, green: Channel, blue: Channel, alpha: Channel)

  /** Opacity of a shipwreck highlight's fill. */
  const HighlightAlpha: Channel := 50
  /** Stroke width of a shipwreck highlight's outline. */
  const HighlightStroke: nat := 2

  /** A new colour with the red, green and blue of c and the given alpha. */
  function WithAlpha(c: Color, alpha: Channel): (r: Color)
    ensures r.red == c.red && r.green == c.green && r.blue == c.blue && r.alpha == alpha
    ensures alpha == c.alpha ==> r == c
  {
    Color(c.red, c.green, c.blue, alpha)
  }
}
