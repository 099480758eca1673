/** The picture the carver works on: a width-by-height grid of RGB colours, indexed [x][y]. */
module Pictures {
  import opened Results

  datatype Color = Color(red: int, green: int, blue: int)

  predicate IsChannel(v: int) { 0 <= v <= 255 }

  predicate IsColor(c: Color) { IsChannel(c.red) && IsChannel(c.green) && IsChannel(c.blue) }

  datatype Grid = Grid(width: nat, height: nat, pixels: seq<seq<Color>>)

  /** Column x of the grid holds the height colours of that column, top to bottom. */
  predicate WellFormed(g: Grid) {
    |g.pixels| == g.width &&
    forall x | 0 <= x < g.width ::
      |g.pixels[x]| == g.height && forall y | 0 <= y < g.height :: IsColor(g.pixels[x][y])
  }

  type Picture = g: Grid | WellFormed(g) witness Grid(0, 0, [])

  /** The colour at column x, row y; None where the picture would throw. */
  function Get(p: Picture, x: int, y: int): Option<Color> {
    if 0 <= x < p.width && 0 <= y < p.height then Some(p.pixels[x][y]) else None
  }

  /** Sum of the squared per-channel differences of two colours. */
  function SqDiff(a: Color, b: Color): (d: int)
    ensures d >= 0
    ensures d == 0 <==> a == b
  {
    var dr, dg, db := a.red - b.red, a.green - b.green, a.blue - b.blue;
    SquareNonNegative(dr);
    SquareNonNegative(dg);
    SquareNonNegative(db);
    dr * dr + dg * dg + db * db
  }

  lemma SquareNonNegative(v: int)
    ensures v * v >= 0
    ensures v * v == 0 <==> v == 0
  {
    if v < 0 {
      assert v * v == (-v) * (-v);
    }
  }
}
