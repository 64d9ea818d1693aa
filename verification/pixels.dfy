/** Pixels of the image grid and the colour-channel selector. */
module Pixels {
  import opened Wrappers

  /** An unsigned 8-bit sample, as C#'s byte. */
  newtype byte = x: int | 0 <= x < 256

  /** One pixel: three 8-bit channel samples (struct RGBPixel). */
  datatype RGBPixel = RGBPixel(red: byte, green: byte, blue: byte)

  /** The channel a per-channel graph is built from. */
  datatype Colour = Red | Green | Blue

  /** The selector characters the graph builder accepts: 'r', 'g' and 'b'. */
  function ParseColour(c: char): (r: Option<Colour>)
    ensures r.Some? <==> c == 'r' || c == 'g' || c == 'b'
  {
    match c
    case 'r' => Some(Red)
    case 'g' => Some(Green)
    case 'b' => Some(Blue)
    case _ => None
  }

  /** The sample of the selected channel (the getChannel delegate). */
  function ChannelOf(p: RGBPixel, c: Colour): byte
  {
    match c
    case Red => p.red
    case Green => p.green
    case Blue => p.blue
  }

  /** |a - b| computed on ints and converted to a float-valued weight. */
  function AbsDiff(a: byte, b: byte): (w: real)
    ensures 0.0 <= w <= 255.0
    ensures w == (a as int - b as int) as real || w == (b as int - a as int) as real
  {
    if a >= b then (a as int - b as int) as real else (b as int - a as int) as real
  }
}
