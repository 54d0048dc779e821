/** The midpoint circle: which pixels it draws, for which radii its 16-bit error term is wide
    enough, and what happens for the others. */
module Circles {
  import opened Bits
  import opened Lines

  /** `y` is the integer nearest to the height of a circle of radius `r` at offset `x`,
      that is `(y - 1/2)^2 < r^2 - x^2 < (y + 1/2)^2`. */
  predicate Nearest(x: int, y: int, r: int)
  {
    -y <= x * x + y * y - r * r <= y - 1
  }

  /** There is at most one nearest height. */
  lemma NearestIsUnique(x: int, y: nat, y': nat, r: int)
    requires Nearest(x, y, r) && Nearest(x, y', r)
    ensures y == y'
  {
    if y < y' {
      SquareMonotone(y + 1, y');
    } else if y' < y {
      SquareMonotone(y' + 1, y);
    }
  }

  /** A column so far right that no pixel of it on or above the diagonal is on the arc. */
  ghost predicate BeyondArc(x: int, r: int)
  {
    2 * (x * x) - x >= r * r
  }

  /** One nearest pixel, on or above the diagonal, for every column from `x` on. */
  ghost predicate Columns(offsets: seq<Point>, x: int, r: int)
  {
    forall i | 0 <= i < |offsets| ::
      offsets[i].x == x + i <= offsets[i].y && Nearest(x + i, offsets[i].y, r)
  }

  /** The offsets of one octant: every nearest pixel on or above the diagonal. */
  ghost predicate IsOctant(offsets: seq<Point>, r: int)
  {
    && Columns(offsets, 0, r)
    && (forall x: nat, y: nat | x <= y && Nearest(x, y, r) :: x < |offsets| && offsets[x] == Point(x, y))
  }

  /** The midpoint error term for the step from `(x, y)`. */
  ghost function MidpointError(x: int, y: int, r: int): int
  {
    2 * ((x + 1) * (x + 1)) + y * y + (y - 1) * (y - 1) - 2 * (r * r)
  }

  /** One step of the circle: to the right, and down when the error says so. */
  lemma CircleStep(x: nat, y: nat, r: nat, y': nat)
    requires x <= y && Nearest(x, y, r)
    requires y' == if MidpointError(x, y, r) < 0 then y else y - 1
    ensures x + 1 <= y' ==> Nearest(x + 1, y', r)
    ensures x + 1 > y' ==> BeyondArc(x + 1, r)
    ensures MidpointError(x + 1, y', r) ==
      MidpointError(x, y, r) + if MidpointError(x, y, r) < 0 then 4 * x + 6 else 4 * (x - y) + 10
  {
    assert MidpointError(x, y, r) == 2 * (x * x + y * y - r * r) + 4 * x + 3 - 2 * y;
    assert (x + 1) * (x + 1) == x * x + 2 * x + 1;
    assert (y - 1) * (y - 1) == y * y - 2 * y + 1;
    if x + 1 > y' {
      assert y == x || y == x + 1;
    }
  }

  lemma SquareMonotone(a: nat, b: nat)
    requires a <= b
    ensures a * a <= b * b
    ensures a > 0 ==> a * a - a <= b * b - b
  {
    assert b * b == a * a + (b - a) * (b + a);
    MulNonNegative(b - a, b + a);
    if a > 0 {
      assert b * b - b == a * a - a + (b - a) * (b + a - 1);
      MulNonNegative(b - a, b + a - 1);
    }
  }

  /** Columns to the right of the diagonal have no pixel in the octant. */
  lemma BeyondDiagonal(n: nat, x: nat, y: nat, r: nat)
    requires BeyondArc(n, r) && 0 < n <= x <= y
    ensures !Nearest(x, y, r)
  {
    SquareMonotone(n, x);
    SquareMonotone(n, y);
  }

  lemma OctantComplete(offsets: seq<Point>, r: nat)
    requires |offsets| > 0 && BeyondArc(|offsets|, r) && Columns(offsets, 0, r)
    ensures IsOctant(offsets, r)
  {
    hide Nearest;
    forall x: nat, y: nat | x <= y && Nearest(x, y, r)
      ensures x < |offsets| && offsets[x] == Point(x, y)
    {
      if x >= |offsets| {
        BeyondDiagonal(|offsets|, x, y, r);
      } else {
        NearestIsUnique(x, y, offsets[x].y, r);
      }
    }
  }

  // ---- The loop with an error term of any size ----

  /** Where the loop stands: the error belongs to the pixel, which is the nearest one as long
      as it is on or above the diagonal; after that the octant is complete. */
  ghost predicate OnArc(x: nat, y: int, error: int, r: nat)
  {
    && error == MidpointError(x, y, r)
    && (x <= y ==> Nearest(x, y, r)) && (x > y ==> BeyondArc(x, r))
  }

  /** The offsets the loop draws from `(x, y)` on if the error term never overflows. */
  ghost function ArcFrom(x: nat, y: int, error: int): seq<Point>
    decreases if x <= y then y - x + 1 else 0
  {
    if x > y then []
    else [Point(x, y)] + if error < 0 then ArcFrom(x + 1, y, error + (4 * x + 6))
                         else ArcFrom(x + 1, y - 1, error + (4 * (x - y) + 10))
  }

  lemma ArcStep(x: nat, y: nat, error: int, r: nat)
    requires x <= y && OnArc(x, y, error, r)
    ensures error < 0 ==> OnArc(x + 1, y, error + (4 * x + 6), r)
    ensures error >= 0 ==> OnArc(x + 1, y - 1, error + (4 * (x - y) + 10), r)
  {
    assert y >= 1 by {
      assert Nearest(x, y, r);
    }
    hide Nearest;
    hide MidpointError;
    hide BeyondArc;
    CircleStep(x, y, r, if error < 0 then y else y - 1);
  }

  lemma ArcNearest(x: nat, y: int, error: int, r: nat)
    requires OnArc(x, y, error, r)
    ensures if x <= y then Nearest(x, y, r) else BeyondArc(x, r)
  {
  }

  lemma ArcEnds(x: nat, y: int, error: int, r: nat)
    requires x > y
    ensures ArcFrom(x, y, error) == [] && Columns([], x, r)
  {
  }

  lemma ArcUnfolds(x: nat, y: int, error: int)
    requires x <= y
    ensures ArcFrom(x, y, error) ==
      [Point(x, y)] + (if error < 0 then ArcFrom(x + 1, y, error + (4 * x + 6))
                       else ArcFrom(x + 1, y - 1, error + (4 * (x - y) + 10)))
  {
  }

  lemma ColumnBefore(p: Point, rest: seq<Point>, r: int)
    requires p.x <= p.y && Nearest(p.x, p.y, r) && Columns(rest, p.x + 1, r)
    ensures Columns([p] + rest, p.x, r)
  {
    hide Nearest;
  }

  /** Every pixel of the arc is the nearest one of its column, and past the last column there
      is none left. */
  lemma {:induction false} ArcColumns(x: nat, y: int, error: int, r: nat)
    requires OnArc(x, y, error, r)
    ensures Columns(ArcFrom(x, y, error), x, r) && BeyondArc(x + |ArcFrom(x, y, error)|, r)
    decreases if x <= y then y - x + 1 else 0
  {
    hide *;
    ArcNearest(x, y, error, r);
    if x > y {
      ArcEnds(x, y, error, r);
    } else {
      ArcStep(x, y, error, r);
      ArcUnfolds(x, y, error);
      if error < 0 {
        ArcColumns(x + 1, y, error + (4 * x + 6), r);
        ColumnBefore(Point(x, y), ArcFrom(x + 1, y, error + (4 * x + 6)), r);
      } else {
        ArcColumns(x + 1, y - 1, error + (4 * (x - y) + 10), r);
        ColumnBefore(Point(x, y), ArcFrom(x + 1, y - 1, error + (4 * (x - y) + 10)), r);
      }
    }
  }

  /** For every positive radius the loop draws exactly the nearest pixels of an octant, given
      an error term that is wide enough. */
  lemma ArcIsOctant(r: nat)
    requires r > 0
    ensures IsOctant(ArcFrom(0, r, 3 - 2 * r), r)
  {
    assert OnArc(0, r, 3 - 2 * r, r);
    hide Nearest;
    hide BeyondArc;
    hide OnArc;
    ArcColumns(0, r, 3 - 2 * r, r);
    ArcUnfolds(0, r, 3 - 2 * r);
    hide ArcFrom;
    OctantComplete(ArcFrom(0, r, 3 - 2 * r), r);
  }

  // ---- How wide the error term has to be ----

  /** The largest radius whose error terms all fit 16 bits. */
  const MAX_RADIUS := 8345

  /** Up to that radius no error term on the arc is too small. */
  lemma ErrorFits(x: nat, y: nat, r: nat)
    requires x <= y <= r <= MAX_RADIUS && Nearest(x, y, r)
    ensures -0x8000 <= MidpointError(x, y, r) && x <= 6000 && y >= 1
  {
    ErrorExpanded(x, y, r);
    if x > 6000 {
      SquareMonotone(6001, x);
      SquareMonotone(6001, y);
      SquareMonotone(r, MAX_RADIUS);
    }
    if y == r - 1 && r > 8192 {
      OneDown(x, r);
    } else if y < r - 1 && r > 8192 {
      FurtherDown(x, y, r);
    }
  }

  lemma ErrorExpanded(x: int, y: int, r: int)
    ensures MidpointError(x, y, r) == 2 * (x * x + y * y - r * r) + 4 * x + 3 - 2 * y
  {
    assert (x + 1) * (x + 1) == x * x + 2 * x + 1;
    assert (y - 1) * (y - 1) == y * y - 2 * y + 1;
  }

  /** The error term in the columns that are one pixel lower than the top. */
  lemma OneDown(x: nat, r: nat)
    requires 8192 < r <= MAX_RADIUS && Nearest(x, r - 1, r)
    ensures -0x8000 <= MidpointError(x, r - 1, r)
  {
    LowerSquare(r);
    ErrorExpanded(x, r - 1, r);
    assert x * x >= r;
    if x <= 90 {
      SquareMonotone(x, 90);
    }
    if x >= 92 {
      SquareMonotone(92, x);
    }
  }

  lemma LowerSquare(r: int)
    ensures (r - 1) * (r - 1) == r * r - 2 * r + 1
    ensures (r - 2) * (r - 2) == r * r - 4 * r + 4
  {
  }

  /** Further down it is larger again. */
  lemma FurtherDown(x: nat, y: nat, r: nat)
    requires 8192 < r <= MAX_RADIUS && x <= y < r - 1 && Nearest(x, y, r)
    ensures -0x8000 <= MidpointError(x, y, r)
  {
    LowerSquare(r);
    ErrorExpanded(x, y, r);
    SquareMonotone(y, r - 2);
    assert x * x >= 3 * r - 2;
    if x <= 156 {
      SquareMonotone(x, 156);
    }
  }

  /** One turn of the loop with a radius up to that limit. */
  lemma ArcStepFits(x: nat, y: nat, error: int, r: nat)
    requires x <= y <= r <= MAX_RADIUS && OnArc(x, y, error, r)
    ensures x <= 6000 && y >= 1
    ensures if error < 0
            then Wrap16(error + (4 * x + 6)) == error + (4 * x + 6)
            else Wrap16(error + (4 * (x - y) + 10)) == error + (4 * (x - y) + 10)
  {
    ErrorFits(x, y, r);
    ArcStep(x, y, error, r);
    hide Nearest;
    hide BeyondArc;
    if error < 0 {
      WrapFits(error + (4 * x + 6));
    } else {
      if x + 1 <= y - 1 {
        ErrorFits(x + 1, y - 1, r);
      }
      WrapFits(error + (4 * (x - y) + 10));
    }
  }

  // ---- Larger radii ----

  /** The column in which a circle of a larger radius slips, and the height it should have
      there. */
  datatype Slip = Slip(column: nat, height: nat)

  /** Up to the column before it the drawing is right, but there the error term overflows
      and turns positive. */
  ghost predicate SlipsAt(s: Slip, r: nat)
  {
    && 1 <= s.column < s.height <= r && Nearest(s.column, s.height, r)
    && if s.column == 1 then s.height == r && Wrap16(3 - 2 * r) >= 0
       else
         && s.height == r - 1
         && 3 - 2 * r >= -0x8000
         && (forall x: nat | x < s.column - 2 :: -0x8000 <= MidpointError(x, r, r) < 0)
         && 0 <= MidpointError(s.column - 2, r, r) < 0x8000
         && Wrap16(MidpointError(s.column - 1, r - 1, r)) >= 0
  }

  lemma {:induction false} SquareRoot(r: nat) returns (k: nat)
    requires r > 0
    ensures k > 0 && (k - 1) * (k - 1) < r <= k * k
  {
    if r == 1 {
      k := 1;
    } else {
      k := SquareRoot(r - 1);
      if k * k < r {
        k := k + 1;
        assert k * k == (k - 1) * (k - 1) + 2 * k - 1;
      }
    }
  }

  lemma SlipExists(r: nat) returns (s: Slip)
    requires MAX_RADIUS < r < 0x8000
    ensures SlipsAt(s, r)
  {
    if 3 - 2 * r < -0x8000 {
      WrapFits(3 - 2 * r);
      s := Slip(1, r);
    } else {
      var k := SquareRoot(r);
      s := Slip(k + 1, r - 1);
      RootRange(r, k);
      TopErrors(r, k);
      SlipError(r, k);
      SlipHeight(r, k);
      hide Nearest;
      hide MidpointError;
    }
  }

  lemma RootRange(r: nat, k: nat)
    requires MAX_RADIUS < r <= 16385 && k > 0 && (k - 1) * (k - 1) < r <= k * k
    ensures 92 <= k <= 129
    ensures k == 92 || r > 8464
  {
    if k < 92 {
      SquareMonotone(k, 91);
    }
    if k > 92 {
      SquareMonotone(92, k - 1);
    }
    if k > 129 {
      SquareMonotone(129, k - 1);
    }
  }

  /** While the height is that of the top, the error term is that of the arc. */
  lemma TopErrors(r: nat, k: nat)
    requires 92 <= k <= 129 && (k - 1) * (k - 1) < r <= k * k && 3 - 2 * r >= -0x8000
    ensures forall x: nat | x < k - 1 :: -0x8000 <= MidpointError(x, r, r) < 0
    ensures 0 <= MidpointError(k - 1, r, r) < 0x8000
  {
    forall x: nat | x < k - 1
      ensures -0x8000 <= MidpointError(x, r, r) < 0
    {
      TopError(x, r);
      SquareMonotone(x + 1, k - 1);
      SquareMonotone(1, x + 1);
    }
    TopError(k - 1, r);
    assert k * k == (k - 1) * (k - 1) + 2 * k - 1;
  }

  lemma TopError(x: int, r: int)
    ensures MidpointError(x, r, r) == 2 * ((x + 1) * (x + 1)) - 2 * r + 1
  {
    LowerSquare(r);
  }

  lemma SlipError(r: nat, k: nat)
    requires MAX_RADIUS < r <= 16385 && 92 <= k <= 129 && (k - 1) * (k - 1) < r <= k * k
    requires k == 92 || r > 8464
    ensures Wrap16(MidpointError(k, r - 1, r)) >= 0
  {
    LowerSquare(r);
    ErrorExpanded(k, r - 1, r);
    var error := MidpointError(k, r - 1, r);
    assert error == 2 * (k * k) + 4 * k + 7 - 6 * r;
    assert k * k == (k - 1) * (k - 1) + 2 * k - 1;
    WrapFits(error);
  }

  lemma SlipHeight(r: nat, k: nat)
    requires MAX_RADIUS < r <= 16385 && 92 <= k <= 129 && (k - 1) * (k - 1) < r <= k * k
    ensures Nearest(k + 1, r - 1, r)
  {
    LowerSquare(r);
    assert (k + 1) * (k + 1) == k * k + 2 * k + 1 == (k - 1) * (k - 1) + 4 * k;
  }

  /** Where the loop stands with a larger radius. */
  ghost predicate Slipping(s: Slip, r: nat, x: nat, y: int, error: int, offsets: seq<Point>)
  {
    if x + 1 < s.column then y == r && error == MidpointError(x, r, r)
    else if x + 1 == s.column then y == s.height && error >= 0
    else
      && y < s.height
      && if x == s.column then y == s.height - 1
         else |offsets| > s.column && offsets[s.column] == Point(s.column, s.height - 1)
  }

  lemma SlipStart(s: Slip, r: nat)
    requires SlipsAt(s, r)
    ensures Slipping(s, r, 0, r, Wrap16(3 - 2 * r), [])
  {
    LowerSquare(r);
    WrapFits(3 - 2 * r);
  }

  lemma TopStep(x: nat, r: nat)
    ensures MidpointError(x + 1, r, r) == MidpointError(x, r, r) + (4 * x + 6)
    ensures MidpointError(x + 1, r - 1, r) == MidpointError(x, r, r) + (4 * (x - r) + 10)
  {
    ErrorExpanded(x, r, r);
    ErrorExpanded(x + 1, r, r);
    ErrorExpanded(x + 1, r - 1, r);
    LowerSquare(r);
    assert (x + 1) * (x + 1) == x * x + 2 * x + 1;
    hide MidpointError;
  }

  lemma SlipStep(s: Slip, r: nat, x: nat, y: int, error: int, offsets: seq<Point>)
    requires SlipsAt(s, r) && x <= y && |offsets| == x && Slipping(s, r, x, y, error, offsets)
    ensures error < 0 ==>
      Slipping(s, r, x + 1, y, Wrap16(error + (4 * x + 6)), offsets + [Point(x, y)])
    ensures error >= 0 ==>
      Slipping(s, r, x + 1, y - 1, Wrap16(error + (4 * (x - y) + 10)), offsets + [Point(x, y)])
  {
    hide MidpointError;
    hide Nearest;
    hide Wrap16;
    TopStep(x, r);
    WrapFits(MidpointError(x + 1, r, r));
  }

  /** A drawing that slipped is not the octant. */
  lemma SlipIsWrong(s: Slip, r: nat, x: nat, y: int, error: int, offsets: seq<Point>)
    requires SlipsAt(s, r) && x > y && |offsets| == x && Slipping(s, r, x, y, error, offsets)
    ensures !IsOctant(offsets, r)
  {
    assert Nearest(s.column, s.height, r);
    hide Nearest;
    hide MidpointError;
  }

  // ---- The drawing ----

  /** The pixels drawn for one offset: one in each enabled octant. */
  function OctantPixels(center: Point, o: Point, mask: nat): seq<Point>
  {
    (if And(mask, 1) != 0 then [Point(center.x + o.y, center.y - o.x)] else []) +
    (if And(mask, 2) != 0 then [Point(center.x + o.x, center.y - o.y)] else []) +
    (if And(mask, 4) != 0 then [Point(center.x - o.x, center.y - o.y)] else []) +
    (if And(mask, 8) != 0 then [Point(center.x - o.y, center.y - o.x)] else []) +
    (if And(mask, 16) != 0 then [Point(center.x - o.y, center.y + o.x)] else []) +
    (if And(mask, 32) != 0 then [Point(center.x - o.x, center.y + o.y)] else []) +
    (if And(mask, 64) != 0 then [Point(center.x + o.x, center.y + o.y)] else []) +
    (if And(mask, 128) != 0 then [Point(center.x + o.y, center.y + o.x)] else [])
  }

  function CirclePixels(center: Point, offsets: seq<Point>, mask: nat): seq<Point>
  {
    if offsets == [] then []
    else CirclePixels(center, offsets[..|offsets| - 1], mask) + OctantPixels(center, offsets[|offsets| - 1], mask)
  }

  /** The octants, counted from the right upwards; y grows downwards. */
  predicate InOctant(k: nat, dx: int, dy: int)
  {
    match k
    case 0 => 0 <= -dy <= dx
    case 1 => 0 <= dx <= -dy
    case 2 => 0 <= -dx <= -dy
    case 3 => 0 <= -dy <= -dx
    case 4 => 0 <= dy <= -dx
    case 5 => 0 <= -dx <= dy
    case 6 => 0 <= dx <= dy
    case 7 => 0 <= dy <= dx
    case _ => false
  }

  /** Whether a distance from the centre lies in an octant that the mask enables. */
  ghost predicate Enabled(mask: nat, dx: int, dy: int)
  {
    exists k: nat :: InOctant(k, dx, dy) && And(mask, Pow2(k)) != 0
  }

  function Shorter(dx: int, dy: int): nat
  {
    if Abs(dx) < Abs(dy) then Abs(dx) else Abs(dy)
  }

  /** For one offset those pixels are drawn whose distances are the offset, in the enabled
      octants. */
  lemma OctantPixelsAre(center: Point, o: Point, mask: nat, p: Point)
    requires 0 <= o.x <= o.y
    ensures var dx, dy := p.x - center.x, p.y - center.y;
            p in OctantPixels(center, o, mask) <==>
              Enabled(mask, dx, dy) && Shorter(dx, dy) == o.x && Max(Abs(dx), Abs(dy)) == o.y
  {
    hide And;
    hide Enabled;
    hide OctantPixels;
    var dx, dy := p.x - center.x, p.y - center.y;
    EnabledIs(mask, dx, dy);
    OctantPixelsIs(center, o, mask, p);
  }

  lemma OctantPixelsIs(center: Point, o: Point, mask: nat, p: Point)
    ensures var dx, dy := p.x - center.x, p.y - center.y;
      p in OctantPixels(center, o, mask) <==>
        || (And(mask, 1) != 0 && dx == o.y && -dy == o.x) || (And(mask, 2) != 0 && dx == o.x && -dy == o.y)
        || (And(mask, 4) != 0 && -dx == o.x && -dy == o.y) || (And(mask, 8) != 0 && -dx == o.y && -dy == o.x)
        || (And(mask, 16) != 0 && -dx == o.y && dy == o.x) || (And(mask, 32) != 0 && -dx == o.x && dy == o.y)
        || (And(mask, 64) != 0 && dx == o.x && dy == o.y) || (And(mask, 128) != 0 && dx == o.y && dy == o.x)
  {
    hide And;
  }

  lemma EnabledIs(mask: nat, dx: int, dy: int)
    ensures Enabled(mask, dx, dy) <==>
      || (And(mask, 1) != 0 && InOctant(0, dx, dy)) || (And(mask, 2) != 0 && InOctant(1, dx, dy))
      || (And(mask, 4) != 0 && InOctant(2, dx, dy)) || (And(mask, 8) != 0 && InOctant(3, dx, dy))
      || (And(mask, 16) != 0 && InOctant(4, dx, dy)) || (And(mask, 32) != 0 && InOctant(5, dx, dy))
      || (And(mask, 64) != 0 && InOctant(6, dx, dy)) || (And(mask, 128) != 0 && InOctant(7, dx, dy))
  {
    hide And;
    assert Pow2(3) == 8 && Pow2(0) == 1 && Pow2(1) == 2 && Pow2(2) == 4;
    assert Pow2(6) == 64 && Pow2(4) == 16 && Pow2(5) == 32 && Pow2(7) == 128;
  }

  /** The pixels nearest to a circle in the enabled octants. */
  ghost predicate OnCircle(center: Point, r: int, mask: nat, p: Point)
  {
    var dx, dy := p.x - center.x, p.y - center.y;
    Enabled(mask, dx, dy) && Nearest(Shorter(dx, dy), Max(Abs(dx), Abs(dy)), r)
  }

  lemma {:induction false} CirclePixelsAre(center: Point, offsets: seq<Point>, mask: nat, p: Point)
    ensures p in CirclePixels(center, offsets, mask) <==>
      exists i :: 0 <= i < |offsets| && p in OctantPixels(center, offsets[i], mask)
  {
    hide OctantPixels;
    if offsets != [] {
      CirclePixelsAre(center, offsets[..|offsets| - 1], mask, p);
    }
  }

  /** A complete octant is mirrored to exactly the pixels nearest to the circle. */
  lemma CircleIsRound(center: Point, offsets: seq<Point>, r: int, mask: nat)
    requires IsOctant(offsets, r)
    ensures forall p :: p in CirclePixels(center, offsets, mask) <==> OnCircle(center, r, mask, p)
  {
    hide OctantPixels;
    hide CirclePixels;
    hide Nearest;
    hide Enabled;
    forall p
      ensures p in CirclePixels(center, offsets, mask) <==> OnCircle(center, r, mask, p)
    {
      var dx, dy := p.x - center.x, p.y - center.y;
      var x, y := Shorter(dx, dy), Max(Abs(dx), Abs(dy));
      CirclePixelsAre(center, offsets, mask, p);
      forall i | 0 <= i < |offsets|
        ensures p in OctantPixels(center, offsets[i], mask) <==> Enabled(mask, dx, dy) && offsets[i] == Point(x, y)
      {
        OctantPixelsAre(center, offsets[i], mask, p);
      }
    }
  }

  lemma NoPixels(center: Point, mask: nat)
    ensures CirclePixels(center, [], mask) == []
  {
  }

  lemma CircleAppend(center: Point, offsets: seq<Point>, o: Point, mask: nat)
    ensures CirclePixels(center, offsets + [o], mask)
         == CirclePixels(center, offsets, mask) + OctantPixels(center, o, mask)
  {
    assert (offsets + [o])[..|offsets|] == offsets;
  }

  /** Where the loop stands, for any radius. */
  ghost predicate Drawing(s: Slip, r: nat, x: nat, y: int, error: int, offsets: seq<Point>)
  {
    && |offsets| == x && x <= y + 2 && y <= r
    && if r <= MAX_RADIUS
       then OnArc(x, y, error, r) && offsets + ArcFrom(x, y, error) == ArcFrom(0, r, 3 - 2 * r)
       else SlipsAt(s, r) && Slipping(s, r, x, y, error, offsets)
  }

  lemma DrawingStarts(r: nat) returns (s: Slip)
    requires 0 < r < 0x8000
    ensures Drawing(s, r, 0, r, Wrap16(3 - 2 * r), [])
  {
    if r <= MAX_RADIUS {
      s := Slip(0, 0);
      assert OnArc(0, r, 3 - 2 * r, r);
      WrapFits(3 - 2 * r);
    } else {
      s := SlipExists(r);
      SlipStart(s, r);
    }
  }

  lemma DrawingGoesOn(s: Slip, r: nat, x: nat, y: int, error: int, offsets: seq<Point>)
    requires r < 0x8000 && x <= y && Drawing(s, r, x, y, error, offsets)
    ensures x + 1 < 0x8000 && y <= r
    ensures error < 0 ==> Drawing(s, r, x + 1, y, Wrap16(error + (4 * x + 6)), offsets + [Point(x, y)])
    ensures error >= 0 ==>
      Drawing(s, r, x + 1, y - 1, Wrap16(error + (4 * (x - y) + 10)), offsets + [Point(x, y)])
  {
    hide OnArc;
    hide SlipsAt;
    hide Wrap16;
    hide ArcFrom;
    if r <= MAX_RADIUS {
      hide Slipping;
      ArcStep(x, y, error, r);
      ArcStepFits(x, y, error, r);
      ArcUnfolds(x, y, error);
      if error < 0 {
        Regroup(offsets, Point(x, y), ArcFrom(x + 1, y, error + (4 * x + 6)));
      } else {
        Regroup(offsets, Point(x, y), ArcFrom(x + 1, y - 1, error + (4 * (x - y) + 10)));
      }
    } else {
      SlipRange(s, r);
      SlipStep(s, r, x, y, error, offsets);
    }
  }

  lemma Regroup(first: seq<Point>, p: Point, rest: seq<Point>)
    ensures first + ([p] + rest) == (first + [p]) + rest
  {
  }

  lemma SlipRange(s: Slip, r: nat)
    requires SlipsAt(s, r)
    ensures 1 <= s.column < s.height <= r
  {
  }

  lemma DrawingEnds(s: Slip, r: nat, x: nat, y: int, error: int, offsets: seq<Point>)
    requires 0 < r && x > y && Drawing(s, r, x, y, error, offsets)
    ensures r <= MAX_RADIUS ==> offsets == ArcFrom(0, r, 3 - 2 * r)
    ensures IsOctant(offsets, r) <==> r <= MAX_RADIUS
  {
    if r <= MAX_RADIUS {
      ArcIsOctant(r);
    } else {
      SlipIsWrong(s, r, x, y, error, offsets);
    }
  }

  /** The circle as it is drawn with a 16-bit error term. For a positive radius one pixel for
      each offset is drawn in each octant the mask enables, and the offsets are exactly the
      nearest pixels of every column if and only if the radius is at most `MAX_RADIUS`. A
      zero radius gives a single pixel, a negative one none. */
  method DrawCircle(x: int, y: int, radius: int16, mask: nat) returns (pixels: seq<Point>, ghost offsets: seq<Point>)
    ensures radius == 0 ==> pixels == [Point(x, y)]
    ensures radius < 0 ==> pixels == []
    ensures radius > 0 ==> pixels == CirclePixels(Point(x, y), offsets, mask)
    ensures 0 < radius <= MAX_RADIUS ==> offsets == ArcFrom(0, radius, 3 - 2 * radius)
    ensures radius > 0 ==> (IsOctant(offsets, radius) <==> radius <= MAX_RADIUS)
    ensures 0 < radius <= MAX_RADIUS ==> forall p :: p in pixels <==> OnCircle(Point(x, y), radius, mask, p)
  {
    hide *;
    pixels, offsets := [], [];
    if radius == 0 {
      pixels := [Point(x, y)];
      return;
    }
    NoPixels(Point(x, y), mask);
    var offsetX: int16 := 0;
    var offsetY: int16 := radius;
    var error: int16 := Wrap16(3 - 2 * radius);
    ghost var s := Slip(0, 0);
    if radius > 0 {
      s := DrawingStarts(radius);
    }
    while offsetX <= offsetY
      invariant 0 <= offsetX <= radius + 2 || radius < 0
      invariant radius < 0 ==> offsetX == 0 && offsetY == radius && pixels == []
      invariant radius > 0 ==> Drawing(s, radius, offsetX, offsetY, error, offsets)
      invariant radius > 0 ==> pixels == CirclePixels(Point(x, y), offsets, mask)
      decreases offsetY - offsetX
    {
      DrawingGoesOn(s, radius, offsetX, offsetY, error, offsets);
      CircleAppend(Point(x, y), offsets, Point(offsetX, offsetY), mask);
      pixels := pixels + OctantPixels(Point(x, y), Point(offsetX, offsetY), mask);
      offsets := offsets + [Point(offsetX, offsetY)];
      if error < 0 {
        error := Wrap16(error + (4 * offsetX + 6));
      } else {
        error := Wrap16(error + (4 * (offsetX - offsetY) + 10));
        offsetY := offsetY - 1;
      }
      offsetX := offsetX + 1;
    }
    if radius > 0 {
      DrawingEnds(s, radius, offsetX, offsetY, error, offsets);
      if radius <= MAX_RADIUS {
        CircleIsRound(Point(x, y), offsets, radius, mask);
      }
    }
  }
}
