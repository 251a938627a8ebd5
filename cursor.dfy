/** The mutable integer cursor (Vec2d.java) that encoder and decoder advance. */
module Cursor {
  import opened Codec
  import opened Geometry

  /** A position moved by relative deltas with Java `int` wrap-around. */
  function Moved(c: Coord, dx: Int32, dy: Int32): Coord
  {
    Coord(Wrap(c.x + dx), Wrap(c.y + dy))
  }

  /** Where every feature's cursor starts. */
  const ORIGIN: Coord := Coord(0, 0)

  class Vec2d {
    var x: Int32
    var y: Int32

    /** The position held. */
    function Value(): Coord
      reads this
    {
      Coord(x, y)
    }

    /** `new Vec2d()`: the origin. */
    constructor Origin()
      ensures Value() == ORIGIN
    {
      x, y := 0, 0;
    }

    /** `new Vec2d(x, y)`. */
    constructor (x: Int32, y: Int32)
      ensures Value() == Coord(x, y)
    {
      this.x, this.y := x, y;
    }

    /** The copy constructor: a new object, so later changes to either leave the other alone. */
    constructor Copy(v: Vec2d)
      ensures Value() == v.Value()
    {
      x, y := v.x, v.y;
    }

    /** `add(dx, dy)`: `x += dx; y += dy` on Java ints. */
    method Add(dx: Int32, dy: Int32)
      modifies this
      ensures Value() == Moved(old(Value()), dx, dy)
    {
      x := Wrap(x + dx);
      y := Wrap(y + dy);
    }

    /** `set(x, y)`. */
    method Set(x: Int32, y: Int32)
      modifies this
      ensures Value() == Coord(x, y)
    {
      this.x, this.y := x, y;
    }

    /** `set(v)`: copies the values, not the object. */
    method SetVec(v: Vec2d)
      modifies this
      ensures Value() == old(v.Value())
    {
      x, y := v.x, v.y;
    }

    /** `setX`: only x changes. */
    method SetX(x: Int32)
      modifies this
      ensures Value() == Coord(x, old(this.y))
    {
      this.x := x;
    }

    /** `setY`: only y changes. */
    method SetY(y: Int32)
      modifies this
      ensures Value() == Coord(old(this.x), y)
    {
      this.y := y;
    }

    /** `equals`: both coordinates agree. */
    method Equals(other: Vec2d) returns (eq: bool)
      ensures eq <==> Value() == other.Value()
      ensures eq <==> x == other.x && y == other.y
    {
      eq := other == this || (x == other.x && y == other.y);
    }
  }

  /** Where a cursor at `c` that visits `pts` in turn ends up. */
  function EndOf(c: Coord, pts: seq<Coord>): Coord {
    if pts == [] then c else Last(pts)
  }

  /** Moving by the wrapped difference of two positions lands on the target, whatever the overflow. */
  lemma MovedByDelta(c: Coord, p: Coord)
    ensures Moved(c, Wrap(p.x - c.x), Wrap(p.y - c.y)) == p
  {
    WrapAddBack(c.x, p.x);
    WrapAddBack(c.y, p.y);
  }

  lemma WrapAddBack(a: Int32, b: Int32)
    ensures Wrap(a + Wrap(b - a)) == b
  {
    var d := Wrap(b - a);
    var k := (b - a - d) / 0x1_0000_0000;
    assert b - a - d == k * 0x1_0000_0000;
    assert a + d == b - k * 0x1_0000_0000;
  }
}
