/**
 * The projection in `update`: the pointer's ray is intersected with the paint
 * plane z = TextureWorldZ, the hit point is mapped to fractional buffer
 * coordinates, those are truncated as C++'s `(int)` does, and the cell is
 * painted red when it lies in the buffer.
 */
module Projector {
  import opened Options
  import opened Vectors
  import opened Texture
  import opened Tracker

  /** The paint plane in world units: depth, width and height. */
  const TextureWorldZ: real := -10.0
  const TextureWorldW: real := 16.0
  const TextureWorldH: real := 9.0

  /**
   * The ray parameter of the hit with the plane, `(TextureWorldZ - pos.z) / dir.z`.
   * With dir.z == 0 the float division gives no finite value; the model then has none.
   */
  function RayParam(pos: Vec3, dir: Vec3): (t: Option<real>)
    ensures t.Some? <==> dir.z != 0.0
    ensures t.Some? ==> pos.Plus(dir.Scale(t.value)).z == TextureWorldZ
  {
    if dir.z == 0.0 then None else Some((TextureWorldZ - pos.z) / dir.z)
  }

  /** Fractional buffer coordinates of a point of the plane: centred in x, bottom-aligned in y. */
  function TexCoord(p: Vec3): (real, real) {
    ((p.x - (-TextureWorldW / 2.0)) * (TextureW as real / TextureWorldW),
     (p.y - 0.0) * (TextureH as real / TextureWorldH))
  }

  /** The plane's rectangle maps onto the buffer's: a point lies on it exactly when its coordinates lie in [0, W) x [0, H). */
  lemma TexCoordMapsPlaneOntoBuffer(p: Vec3)
    ensures var (u, v) := TexCoord(p);
            (-TextureWorldW / 2.0 <= p.x < TextureWorldW / 2.0 && 0.0 <= p.y < TextureWorldH) <==>
            (0.0 <= u < TextureW as real && 0.0 <= v < TextureH as real)
  {
  }

  /** `(int)r`: truncation toward zero. */
  function Trunc(r: real): (n: int)
    ensures r >= 0.0 ==> 0 <= n && n as real <= r < n as real + 1.0
    ensures r < 0.0 ==> n <= 0 && n as real - 1.0 < r <= n as real
  {
    if r >= 0.0 then r.Floor else -((-r).Floor)
  }

  /**
   * The cell `update` aims at (main.cpp:148-155): None when there is no pointer,
   * when the ray has no finite parameter, or when t <= 0; otherwise the truncated
   * coordinates of the hit point, which may still lie outside the buffer.
   */
  function Aim(p: PointerState): Option<(int, int)> {
    if p.id.None? then None
    else match RayParam(p.pos, p.dir)
      case None => None
      case Some(t) =>
        if t > 0.0 then
          var (u, v) := TexCoord(p.pos.Plus(p.dir.Scale(t)));
          Some((Trunc(u), Trunc(v)))
        else None
  }

  /** The buffer after `update`: the aimed cell painted red if it is in bounds. */
  function Updated(s: seq<Color>, p: PointerState): seq<Color>
    requires |s| == Cells
  {
    match Aim(p)
    case None => s
    case Some((x, y)) => Painted(s, x, y, Red)
  }

  /** With no pointer, `update` leaves the buffer unchanged. */
  lemma NoPointerNoWrite(s: seq<Color>, p: PointerState)
    requires |s| == Cells && p.id.None?
    ensures Updated(s, p) == s
  {
  }

  /** A hit at t <= 0 (behind the pointer) writes nothing. */
  lemma BehindNoWrite(s: seq<Color>, p: PointerState)
    requires |s| == Cells
    requires p.dir.z != 0.0 && (TextureWorldZ - p.pos.z) / p.dir.z <= 0.0
    ensures Updated(s, p) == s
  {
  }

  /**
   * `update` writes at most one cell: if any cell changes, there is a pointer,
   * t > 0, the truncated coordinates are in bounds, the changed cell is exactly
   * theirs, and it is now red. An aimed cell inside the buffer is painted red.
   */
  lemma UpdateWritesOnlyAimedCell(s: seq<Color>, p: PointerState)
    requires |s| == Cells
    ensures |Updated(s, p)| == Cells
    ensures forall i | 0 <= i < Cells && Updated(s, p)[i] != s[i] ::
              p.id.Some? && p.dir.z != 0.0 && (TextureWorldZ - p.pos.z) / p.dir.z > 0.0 &&
              Aim(p).Some? && InBounds(Aim(p).value.0, Aim(p).value.1) &&
              i == Index(Aim(p).value.0, Aim(p).value.1) && Updated(s, p)[i] == Red
    ensures Aim(p).Some? && InBounds(Aim(p).value.0, Aim(p).value.1) ==>
              Updated(s, p)[Index(Aim(p).value.0, Aim(p).value.1)] == Red
  {
    if Aim(p).Some? {
      PaintedChangesOneCell(s, Aim(p).value.0, Aim(p).value.1, Red);
    }
  }

  /** A ray hitting the plane's rectangle ahead of the pointer paints the cell under the hit point. */
  lemma HitOnPlanePaints(p: PointerState)
    requires p.id.Some? && p.dir.z != 0.0 && (TextureWorldZ - p.pos.z) / p.dir.z > 0.0
    requires var h := p.pos.Plus(p.dir.Scale((TextureWorldZ - p.pos.z) / p.dir.z));
             -TextureWorldW / 2.0 <= h.x < TextureWorldW / 2.0 && 0.0 <= h.y < TextureWorldH
    ensures Aim(p).Some? && InBounds(Aim(p).value.0, Aim(p).value.1)
  {
    var t := (TextureWorldZ - p.pos.z) / p.dir.z;
    TexCoordMapsPlaneOntoBuffer(p.pos.Plus(p.dir.Scale(t)));
  }

  /**
   * Truncation toward zero paints a cell even for a hit a little outside the
   * plane: less than one cell left of its left edge lands in column 0.
   */
  lemma TruncationPaintsLeftOfPlane()
    ensures Aim(PointerState(Some(1), Vec3(-8.01, 1.0, 0.0), Vec3(0.0, 0.0, -1.0))) == Some((0, 40))
  {
    assert TexCoord(Vec3(-8.01, 1.0, -10.0)) == (-0.4, 40.0);
  }

  /** Pointer at the origin looking down -z: t = 10, hit (0, 0, -10), cell (320, 0). */
  lemma AimStraightAhead()
    ensures Aim(PointerState(Some(1), Zero, Vec3(0.0, 0.0, -1.0))) == Some((320, 0))
  {
    assert TexCoord(Vec3(0.0, 0.0, -10.0)) == (320.0, 0.0);
  }

  /** `update`: reads the tracker's pointer and paints at most one cell of `texture_data`. */
  method Update(tracker: PointerTracker, data: array<Color>)
    requires data.Length == Cells
    modifies data
    ensures data[..] == Updated(old(data[..]), tracker.State())
  {
    if tracker.pointerId.Some? {
      var pos, dir := tracker.pointerPos, tracker.pointerDir;
      var t := RayParam(pos, dir);
      if t.Some? && t.value > 0.0 {
        var tp := pos.Plus(dir.Scale(t.value));
        var (u, v) := TexCoord(tp);
        var x, y := Trunc(u), Trunc(v);
        if x >= 0 && x < TextureW && y >= 0 && y < TextureH {
          data[Index(x, y)] := Red;
        }
      }
    }
  }
}
