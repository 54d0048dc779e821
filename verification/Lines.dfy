/** The Bresenham line: which pixels it draws, and how close they are to the ideal line. */
module Lines {
  import opened Bits

  datatype Point = Point(x: int, y: int)

  function Abs(a: int): nat
  {
    if a < 0 then -a else a
  }

  function Max(a: int, b: int): int
  {
    if a < b then b else a
  }

  /** `pixels` runs from one end point to the other in steps to a neighbouring pixel, with
      as few pixels as possible, and every pixel is at most half a pixel away from the ideal
      line, measured along the axis on which the line is shorter. A pixel that is exactly half
      a pixel away lags behind. */
  ghost predicate IsLine(pixels: seq<Point>, from: Point, to: Point)
  {
    var dx, dy := to.x - from.x, to.y - from.y;
    var length := Max(Abs(dx), Abs(dy));
    && |pixels| == length + 1
    && pixels[0] == from && pixels[length] == to
    && (forall i | 0 <= i < length :: Adjacent(pixels[i], pixels[i + 1]))
    && (forall i | 0 <= i <= length :: Near(pixels[i], from, to, length) && Rounded(pixels[i], from, to))
  }

  ghost predicate Adjacent(p: Point, q: Point)
  {
    Max(Abs(q.x - p.x), Abs(q.y - p.y)) == 1
  }

  ghost predicate Near(p: Point, from: Point, to: Point, length: int)
  {
    2 * Abs((p.y - from.y) * (to.x - from.x) - (p.x - from.x) * (to.y - from.y)) <= length
  }

  /** How far `d` goes in the direction of `whole`. */
  function Ahead(d: int, whole: int): int
  {
    if whole < 0 then -d else d
  }

  /** Along the shorter axis a pixel is at most half a pixel behind the ideal line and less than
      half a pixel ahead of it. */
  ghost predicate Rounded(p: Point, from: Point, to: Point)
  {
    var dx, dy := to.x - from.x, to.y - from.y;
    var x, y := Ahead(p.x - from.x, dx), Ahead(p.y - from.y, dy);
    if Abs(dx) > Abs(dy) then RoundedAt(y, x, Abs(dx), Abs(dy)) else RoundedAt(x, y, Abs(dy), Abs(dx))
  }

  ghost predicate RoundedAt(s: int, i: int, long: int, short: int)
  {
    long > 0 ==> -long <= 2 * (s * long - i * short) < long
  }

  /** Steps taken along the shorter axis after `i` steps along the longer one. */
  function Minor(i: nat, long: nat, short: nat): nat
  {
    if long == 0 then 0 else (i * short + Rounding(long)) / long
  }

  /** What the error term `e` leaves to the next step: `long - 1 - e`. */
  function Remainder(i: nat, long: nat, short: nat): nat
  {
    if long == 0 then 0 else (i * short + Rounding(long)) % long
  }

  function Rounding(long: nat): nat
    requires long > 0
  {
    long - 1 - long / 2
  }

  /** The error term crosses zero exactly when the shorter axis has to step. */
  lemma MinorStep(i: nat, long: nat, short: nat)
    requires short <= long
    ensures if Remainder(i, long, short) + short >= long > 0
            then Minor(i + 1, long, short) == Minor(i, long, short) + 1
                 && Remainder(i + 1, long, short) == Remainder(i, long, short) + short - long
            else Minor(i + 1, long, short) == Minor(i, long, short)
                 && Remainder(i + 1, long, short) == Remainder(i, long, short) + short
  {
    if long > 0 {
      var q, r := Minor(i, long, short), Remainder(i, long, short);
      assert i * short + Rounding(long) == q * long + r;
      assert (i + 1) * short == i * short + short;
      if r + short >= long {
        assert (q + 1) * long == q * long + long;
        DivModUnique((i + 1) * short + Rounding(long), long, q + 1, r + short - long);
      } else {
        DivModUnique((i + 1) * short + Rounding(long), long, q, r + short);
      }
    }
  }

  lemma {:induction false} MinorBound(i: nat, j: nat, long: nat, short: nat)
    requires i <= j && short <= long
    ensures Minor(i, long, short) <= Minor(j, long, short) <= Minor(i, long, short) + (j - i)
    decreases j - i
  {
    if i < j {
      MinorBound(i + 1, j, long, short);
      MinorStep(i, long, short);
    }
  }

  /** No step yet at the start, and all of them at the end. */
  lemma MinorEnds(long: nat, short: nat)
    requires short <= long
    ensures Minor(0, long, short) == 0 && Minor(long, long, short) == short
    ensures long > 0 ==> Remainder(0, long, short) == Rounding(long)
  {
    if long > 0 {
      DivModUnique(Rounding(long), long, 0, Rounding(long));
      DivModUnique(long * short + Rounding(long), long, short, Rounding(long));
    }
  }

  /** Half a pixel is as far as the shorter axis gets from the ideal line. */
  lemma MinorNear(i: nat, long: nat, short: nat)
    requires short <= long && i <= long
    ensures 2 * Abs(Minor(i, long, short) * long - i * short) <= long
    ensures RoundedAt(Minor(i, long, short), i, long, short)
  {
    if long > 0 {
      RemainderOf(i * short + Rounding(long), long);
    }
  }

  /** `k` steps in the direction `inc`. */
  function Towards(inc: int, k: int): int
  {
    if inc == 1 then k else -k
  }

  /** The pixels of a line that has `long` steps along its longer axis. */
  ghost predicate Follows(pixels: seq<Point>, from: Point, flat: bool, xinc: int, yinc: int, long: nat, short: nat)
  {
    forall k | 0 <= k < |pixels| ::
      pixels[k] == if flat then Point(from.x + Towards(xinc, k), from.y + Towards(yinc, Minor(k, long, short)))
                   else Point(from.x + Towards(xinc, Minor(k, long, short)), from.y + Towards(yinc, k))
  }

  lemma SignedProduct(a: int, b: int, s: int, t: int)
    ensures Towards(a, s) * Towards(b, t) == if (a == 1) == (b == 1) then s * t else -(s * t)
  {
  }

  lemma NearIdeal(p: Point, from: Point, to: Point, i: int, s: int,
                  flat: bool, xinc: int, yinc: int, long: int, short: int)
    requires if flat then p == Point(from.x + Towards(xinc, i), from.y + Towards(yinc, s))
             else p == Point(from.x + Towards(xinc, s), from.y + Towards(yinc, i))
    requires if flat then to == Point(from.x + Towards(xinc, long), from.y + Towards(yinc, short))
             else to == Point(from.x + Towards(xinc, short), from.y + Towards(yinc, long))
    requires 2 * Abs(s * long - i * short) <= long
    ensures Near(p, from, to, long)
  {
    SignedProduct(yinc, xinc, s, long);
    SignedProduct(xinc, yinc, i, short);
    SignedProduct(yinc, xinc, i, short);
    SignedProduct(xinc, yinc, s, long);
  }

  lemma RoundedWalk(p: Point, from: Point, to: Point, i: nat, s: nat,
                    flat: bool, xinc: int, yinc: int, long: nat, short: nat)
    requires short <= long && (flat ==> short < long)
    requires if flat then p == Point(from.x + Towards(xinc, i), from.y + Towards(yinc, s))
             else p == Point(from.x + Towards(xinc, s), from.y + Towards(yinc, i))
    requires if flat then to == Point(from.x + Towards(xinc, long), from.y + Towards(yinc, short))
             else to == Point(from.x + Towards(xinc, short), from.y + Towards(yinc, long))
    requires RoundedAt(s, i, long, short) && (short == 0 ==> s == 0) && (long == 0 ==> i == 0)
    ensures Rounded(p, from, to)
  {
    hide RoundedAt;
  }

  lemma NextIsNeighbour(pixels: seq<Point>, from: Point,
                        flat: bool, xinc: int, yinc: int, long: nat, short: nat, i: nat)
    requires short <= long && i + 1 < |pixels| && Follows(pixels, from, flat, xinc, yinc, long, short)
    ensures Adjacent(pixels[i], pixels[i + 1])
  {
    hide Minor;
    hide Remainder;
    MinorStep(i, long, short);
  }

  lemma FollowsIsLine(pixels: seq<Point>, from: Point, to: Point,
                      flat: bool, xinc: int, yinc: int, long: nat, short: nat)
    requires short <= long && (flat ==> short < long)
    requires if flat then to == Point(from.x + Towards(xinc, long), from.y + Towards(yinc, short))
             else to == Point(from.x + Towards(xinc, short), from.y + Towards(yinc, long))
    requires |pixels| == long + 1 && Follows(pixels, from, flat, xinc, yinc, long, short)
    ensures IsLine(pixels, from, to)
  {
    hide Minor;
    hide Near;
    hide Adjacent;
    hide Remainder;
    MinorEnds(long, short);
    forall i | 0 <= i < long
      ensures Adjacent(pixels[i], pixels[i + 1])
    {
      NextIsNeighbour(pixels, from, flat, xinc, yinc, long, short, i);
    }
    hide Rounded;
    hide RoundedAt;
    forall i | 0 <= i <= long
      ensures Near(pixels[i], from, to, long) && Rounded(pixels[i], from, to)
    {
      MinorNear(i, long, short);
      MinorBound(0, i, long, short);
      MinorBound(i, long, long, short);
      RoundedWalk(pixels[i], from, to, i, Minor(i, long, short), flat, xinc, yinc, long, short);
      NearIdeal(pixels[i], from, to, i, Minor(i, long, short), flat, xinc, yinc, long, short);
    }
  }

  // ---- There is only one such line ----

  lemma {:induction false} Reach(pixels: seq<Point>, i: nat, j: nat)
    requires i <= j < |pixels| && forall k | 0 <= k < |pixels| - 1 :: Adjacent(pixels[k], pixels[k + 1])
    ensures Abs(pixels[j].x - pixels[i].x) <= j - i && Abs(pixels[j].y - pixels[i].y) <= j - i
    decreases j - i
  {
    if i < j {
      Reach(pixels, i, j - 1);
      assert Adjacent(pixels[j - 1], pixels[j - 1 + 1]);
    }
  }

  /** A line has to go on along its longer axis with every step. */
  lemma Straight(pixels: seq<Point>, from: Point, to: Point, i: nat)
    requires IsLine(pixels, from, to) && i < |pixels|
    ensures var dx, dy := to.x - from.x, to.y - from.y;
            if Abs(dx) > Abs(dy) then Ahead(pixels[i].x - from.x, dx) == i else Ahead(pixels[i].y - from.y, dy) == i
  {
    hide Near;
    hide Rounded;
    Reach(pixels, 0, i);
    Reach(pixels, i, |pixels| - 1);
  }

  lemma RoundedOnce(s: int, s': int, i: int, long: nat, short: int)
    requires long > 0 && RoundedAt(s, i, long, short) && RoundedAt(s', i, long, short)
    ensures s == s'
  {
    MulDistributes(s, s', long);
    MulDistributes(s', s, long);
    if s > s' {
      MulAtLeast(s - s', long);
    } else if s' > s {
      MulAtLeast(s' - s, long);
    }
  }

  /** The pixels of a line are determined by its end points. */
  lemma LineIsUnique(pixels: seq<Point>, pixels': seq<Point>, from: Point, to: Point)
    requires IsLine(pixels, from, to) && IsLine(pixels', from, to)
    ensures pixels == pixels'
  {
    var dx, dy := to.x - from.x, to.y - from.y;
    forall i | 0 <= i < |pixels|
      ensures pixels[i] == pixels'[i]
    {
      Straight(pixels, from, to, i);
      Straight(pixels', from, to, i);
      SamePixel(pixels[i], pixels'[i], from, to, i, pixels, pixels');
    }
  }

  lemma SamePixel(p: Point, p': Point, from: Point, to: Point, i: nat, pixels: seq<Point>, pixels': seq<Point>)
    requires IsLine(pixels, from, to) && IsLine(pixels', from, to) && i < |pixels| && i < |pixels'|
    requires p == pixels[i] && p' == pixels'[i]
    requires var dx, dy := to.x - from.x, to.y - from.y;
             if Abs(dx) > Abs(dy) then Ahead(p.x - from.x, dx) == i == Ahead(p'.x - from.x, dx)
             else Ahead(p.y - from.y, dy) == i == Ahead(p'.y - from.y, dy)
    ensures p == p'
  {
    var dx, dy := to.x - from.x, to.y - from.y;
    hide Near;
    hide Adjacent;
    assert Rounded(p, from, to) && Rounded(p', from, to);
    hide RoundedAt;
    if Abs(dx) > Abs(dy) {
      RoundedOnce(Ahead(p.y - from.y, dy), Ahead(p'.y - from.y, dy), i, Abs(dx), Abs(dy));
    } else if dy != 0 {
      RoundedOnce(Ahead(p.x - from.x, dx), Ahead(p'.x - from.x, dx), i, Abs(dy), Abs(dx));
    }
  }

  /** The lines the code draws right: neither dimension overflows, and the 16-bit counter can
      get past the longer one. */
  predicate InRange(from: Point, to: Point)
  {
    Abs(to.x - from.x) < 0x7FFF && Abs(to.y - from.y) < 0x7FFF
  }

  /** A dimension is within range exactly if it is stored unharmed and so is the counter once
      it has passed its magnitude, which is what ends the loop. */
  lemma RangeNeeded(d: int)
    ensures Abs(d) < 0x7FFF <==> Wrap16(d) == d && Wrap16(Abs(d) + 1) == Abs(d) + 1
  {
    WrapFits(d);
    WrapFits(Abs(d) + 1);
  }

  /** The magnitude of a dimension as 16 bits hold it. */
  function Stored(d: int): int16
  {
    if Wrap16(d) < 0 then Wrap16(0 - Wrap16(d)) else Wrap16(d)
  }

  /** The direction as the code takes it from what is stored. */
  function Direction(d: int): int16
  {
    if Wrap16(d) < 0 then -1 else 1
  }

  /** Whether the loop ends: no 16-bit counter gets past 32767. */
  predicate Ends(from: Point, to: Point)
  {
    Max(Stored(to.x - from.x), Stored(to.y - from.y)) < 0x7FFF
  }

  /** The loop ends exactly if its counter can get past the longer dimension. */
  lemma EndsIff(from: Point, to: Point)
    ensures var longer := Max(Stored(to.x - from.x), Stored(to.y - from.y));
            Ends(from, to) <==> Wrap16(longer + 1) > longer
  {
    WrapFits(Max(Stored(to.x - from.x), Stored(to.y - from.y)) + 1);
  }

  /** Dimensions that are too large are stored as smaller ones, which end the loop unless
      they come out as 32767. */
  lemma StoredIs(d: int)
    requires -0x1_0000 < d < 0x1_0000
    ensures Abs(d) < 0x7FFF ==> Stored(d) == Abs(d) && d == Towards(Direction(d), Abs(d))
    ensures Abs(d) >= 0x7FFF ==> Stored(d) < Abs(d) || Stored(d) == 0x7FFF
    ensures Stored(d) >= 0 || Stored(d) == -0x8000
    ensures Stored(d) == 0x7FFF <==> Abs(d) == 0x7FFF || Abs(d) == 0x8001
  {
    WrapFits(d);
    WrapFits(0 - Wrap16(d));
  }

  /** The line is drawn right if and only if it is in range; the call is only required to
      return. */
  method DrawLine(x1: int16, y1: int16, x2: int16, y2: int16) returns (pixels: seq<Point>)
    requires Ends(Point(x1, y1), Point(x2, y2))
    ensures IsLine(pixels, Point(x1, y1), Point(x2, y2)) <==> InRange(Point(x1, y1), Point(x2, y2))
  {
    hide IsLine;
    hide Follows;
    hide Wrap16;
    StoredIs(x2 - x1);
    StoredIs(y2 - y1);
    var xinc: int16 := 1;
    var dx: int16 := Wrap16(x2 - x1);
    if dx < 0 {
      xinc := -1;
      dx := Wrap16(0 - dx);
    }
    var yinc: int16 := 1;
    var dy: int16 := Wrap16(y2 - y1);
    if dy < 0 {
      yinc := -1;
      dy := Wrap16(0 - dy);
    }
    if dx > dy {
      pixels := DrawFlat(x1, y1, xinc, yinc, dx, dy);
    } else {
      pixels := DrawSteep(x1, y1, xinc, yinc, dx, dy);
    }
    LineIff(pixels, Point(x1, y1), Point(x2, y2));
  }

  /** What the walk draws is the line exactly if the line is in range. */
  lemma LineIff(pixels: seq<Point>, from: Point, to: Point)
    requires IsInt16(from.x) && IsInt16(from.y) && IsInt16(to.x) && IsInt16(to.y) && Ends(from, to)
    requires
      var dx, dy := Stored(to.x - from.x), Stored(to.y - from.y);
      var xinc, yinc := Direction(to.x - from.x), Direction(to.y - from.y);
      && |pixels| == Max(-1, Max(dx, dy)) + 1
      && (Fits(from.x, from.y, xinc, yinc, dx, dy) ==>
            if dx > dy then Follows(pixels, from, true, xinc, yinc, dx, dy)
            else Follows(pixels, from, false, xinc, yinc, dy, dx))
    ensures IsLine(pixels, from, to) <==> InRange(from, to)
  {
    hide IsLine;
    hide Follows;
    StoredIs(to.x - from.x);
    StoredIs(to.y - from.y);
    hide Stored;
    hide Direction;
    var dx, dy := Stored(to.x - from.x), Stored(to.y - from.y);
    if InRange(from, to) {
      FollowsIsLine(pixels, from, to, dx > dy, Direction(to.x - from.x), Direction(to.y - from.y),
                    if dx > dy then dx else dy, if dx > dy then dy else dx);
    } else {
      TooShort(pixels, from, to);
    }
  }

  lemma TooShort(pixels: seq<Point>, from: Point, to: Point)
    requires |pixels| < Max(Abs(to.x - from.x), Abs(to.y - from.y)) + 1
    ensures !IsLine(pixels, from, to)
  {
  }

  /** On the way to an end point that fits 16 bits every coordinate fits. */
  lemma Between(a: int16, inc: int, k: int, n: int)
    requires 0 <= k <= n && IsInt16(a + Towards(inc, n))
    ensures Wrap16(a + Towards(inc, k)) == a + Towards(inc, k)
  {
    assert IsInt16(a) && IsInt16(a + Towards(inc, k));
    WrapFits(a + Towards(inc, k));
  }

  /** The dimensions are magnitudes, and the line stays within 16 bits. */
  predicate Fits(x1: int, y1: int, xinc: int, yinc: int, dx: int, dy: int)
  {
    0 <= dx && 0 <= dy && IsInt16(x1 + Towards(xinc, dx)) && IsInt16(y1 + Towards(yinc, dy))
  }

  /** The error term of a step. */
  lemma ErrorStep(e: int16, long: int16, short: int16)
    requires 0 <= short <= long && 0 <= e <= long
    ensures Wrap16(e - short) == e - short
    ensures e < short ==> Wrap16(e - short + long) == e - short + long
  {
    WrapFits(e - short);
    WrapFits(e - short + long);
  }

  /** The walk along x, for lines wider than high. */
  method DrawFlat(x1: int16, y1: int16, xinc: int16, yinc: int16, dx: int16, dy: int16) returns (pixels: seq<Point>)
    requires dy < dx < 0x7FFF && 0 <= dx && (xinc == 1 || xinc == -1) && (yinc == 1 || yinc == -1)
    ensures |pixels| == dx + 1
    ensures Fits(x1, y1, xinc, yinc, dx, dy) ==> Follows(pixels, Point(x1, y1), true, xinc, yinc, dx, dy)
  {
    hide Minor;
    hide Remainder;
    hide Wrap16;
    var x: int16, y: int16, e: int16, i: int16 := x1, y1, dx / 2, 0;
    pixels := [];
    ghost var fits := Fits(x1, y1, xinc, yinc, dx, dy);
    if fits {
      MinorEnds(dx, dy);
      Between(x1, xinc, 0, dx);
      Between(y1, yinc, 0, dy);
    }
    while i <= dx
      invariant 0 <= i <= dx + 1 && |pixels| == i
      invariant fits ==>
        && x == Wrap16(x1 + Towards(xinc, i)) && y == Wrap16(y1 + Towards(yinc, Minor(i, dx, dy)))
        && e == dx - 1 - Remainder(i, dx, dy) && 0 <= e < dx
      invariant fits ==> Follows(pixels, Point(x1, y1), true, xinc, yinc, dx, dy)
    {
      if fits {
        MinorStep(i, dx, dy);
        MinorBound(0, i, dx, dy);
        MinorBound(i, dx, dx, dy);
        Between(x1, xinc, i, dx);
        Between(y1, yinc, Minor(i, dx, dy), dy);
        ErrorStep(e, dx, dy);
      }
      pixels := pixels + [Point(x, y)];
      e := Wrap16(e - dy);
      if e < 0 {
        e := Wrap16(e + dx);
        y := Wrap16(y + yinc);
      }
      x := Wrap16(x + xinc);
      i := i + 1;
    }
  }

  /** The walk along y, for lines at least as high as wide. */
  method DrawSteep(x1: int16, y1: int16, xinc: int16, yinc: int16, dx: int16, dy: int16) returns (pixels: seq<Point>)
    requires dx <= dy < 0x7FFF && (xinc == 1 || xinc == -1) && (yinc == 1 || yinc == -1)
    ensures |pixels| == if dy < 0 then 0 else dy + 1
    ensures Fits(x1, y1, xinc, yinc, dx, dy) ==> Follows(pixels, Point(x1, y1), false, xinc, yinc, dy, dx)
  {
    hide Minor;
    hide Remainder;
    hide Wrap16;
    var x: int16, y: int16, e: int16, i: int16 := x1, y1, dy / 2, 0;
    pixels := [];
    ghost var fits := Fits(x1, y1, xinc, yinc, dx, dy);
    if fits {
      MinorEnds(dy, dx);
      Between(x1, xinc, 0, dx);
      Between(y1, yinc, 0, dy);
    }
    while i <= dy
      invariant 0 <= i <= (if dy < 0 then 0 else dy + 1) && |pixels| == i
      invariant fits ==>
        && y == Wrap16(y1 + Towards(yinc, i)) && x == Wrap16(x1 + Towards(xinc, Minor(i, dy, dx)))
        && if dy == 0 then e == 0 else e == dy - 1 - Remainder(i, dy, dx) && 0 <= e < dy
      invariant fits ==> Follows(pixels, Point(x1, y1), false, xinc, yinc, dy, dx)
    {
      if fits {
        MinorStep(i, dy, dx);
        MinorBound(0, i, dy, dx);
        MinorBound(i, dy, dy, dx);
        Between(y1, yinc, i, dy);
        Between(x1, xinc, Minor(i, dy, dx), dx);
        ErrorStep(e, dy, dx);
      }
      pixels := pixels + [Point(x, y)];
      e := Wrap16(e - dx);
      if e < 0 {
        e := Wrap16(e + dy);
        x := Wrap16(x + xinc);
      }
      y := Wrap16(y + yinc);
      i := i + 1;
    }
  }
}
