/**
 * RGBA cell colours and the two canonical automaton states.
 */
module Colors {

  /** One 8-bit colour channel. */
  newtype byte = x: int | 0 <= x < 256

  datatype Color = Color(r: byte, g: byte, b: byte, a: byte)

  /**
   * The "developed" (activator-dominant) colour.  Its value belongs to a
   * module outside this model; any value distinct from COLOR_U will do.
   */
  const COLOR_D: Color := Color(0, 0, 0, 255)

  /** The "undeveloped" (inhibitor-dominant) colour. */
  const COLOR_U: Color := Color(255, 255, 255, 255)

  /** Channel-by-channel comparison with COLOR_D, as the counting loop does it. */
  function IsDeveloped(c: Color): (b: bool)
    ensures b <==> c == COLOR_D
  {
    c.r == COLOR_D.r && c.g == COLOR_D.g && c.b == COLOR_D.b && c.a == COLOR_D.a
  }
}
