/**
 * The paint buffer `texture_data`: TextureW * TextureH colours in one flat
 * array, row by row, the cell of column x and row y at `y * TextureW + x`.
 */
module Texture {
  import opened Vectors

  type Color = Vec3

  const TextureW: int := 640
  const TextureH: int := 360
  const Cells: int := TextureW * TextureH

  /** The background colour, `glm::vec3(.1f)`. */
  const Background: Color := Splat(0.1)
  /** The colour a painted cell gets, `glm::vec3(1.f, 0.f, 0.f)`. */
  const Red: Color := Vec3(1.0, 0.0, 0.0)

  predicate InBounds(x: int, y: int) {
    0 <= x < TextureW && 0 <= y < TextureH
  }

  /** The array index of cell (x, y); it lies in the array and gives back x and y. */
  function Index(x: int, y: int): (i: nat)
    requires InBounds(x, y)
    ensures i < Cells
    ensures i % TextureW == x && i / TextureW == y
  {
    y * TextureW + x
  }

  /** Every array index is the index of exactly one cell. */
  lemma IndexCovers(i: int)
    requires 0 <= i < Cells
    ensures InBounds(i % TextureW, i / TextureW) && Index(i % TextureW, i / TextureW) == i
  {
  }

  lemma IndexInjective(x0: int, y0: int, x1: int, y1: int)
    requires InBounds(x0, y0) && InBounds(x1, y1)
    ensures Index(x0, y0) == Index(x1, y1) <==> x0 == x1 && y0 == y1
  {
  }

  /** What the buffer holds after a clear, whatever it held before. */
  function Cleared(s: seq<Color>): (r: seq<Color>)
    ensures |r| == |s|
    ensures forall i | 0 <= i < |r| :: r[i] == Background
  {
    seq(|s|, _ => Background)
  }

  /** Clearing twice leaves the buffer as clearing once does. */
  lemma ClearIdempotent(s: seq<Color>)
    ensures Cleared(Cleared(s)) == Cleared(s)
  {
  }

  /** The buffer after cell (x, y) is set to c when (x, y) is in bounds; otherwise the same buffer. */
  function Painted(s: seq<Color>, x: int, y: int, c: Color): (r: seq<Color>)
    requires |s| == Cells
  {
    if InBounds(x, y) then s[Index(x, y) := c] else s
  }

  /** A paint changes at most the one in-bounds cell it names, and that cell gets the colour. */
  lemma PaintedChangesOneCell(s: seq<Color>, x: int, y: int, c: Color)
    requires |s| == Cells
    ensures |Painted(s, x, y, c)| == Cells
    ensures InBounds(x, y) ==> Painted(s, x, y, c)[Index(x, y)] == c
    ensures forall i | 0 <= i < Cells && Painted(s, x, y, c)[i] != s[i] ::
              InBounds(x, y) && i == Index(x, y)
    ensures !InBounds(x, y) ==> Painted(s, x, y, c) == s
  {
  }

  /** `clear_texture`: the nested loops over rows and columns set every cell to the background. */
  method ClearTexture(data: array<Color>)
    requires data.Length == Cells
    modifies data
    ensures data[..] == Cleared(old(data[..]))
  {
    for y := 0 to TextureH
      invariant forall i | 0 <= i < y * TextureW :: data[i] == Background
    {
      for x := 0 to TextureW
        invariant forall i | 0 <= i < y * TextureW + x :: data[i] == Background
      {
        data[Index(x, y)] := Background;
      }
    }
  }
}
