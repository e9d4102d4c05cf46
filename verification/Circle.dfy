/** The circle loop of gfx.cpp: integers only, one row of the octant per iteration. */
module Circle {

  /** How far a point is off the circle of radius `r` about the origin, in squared distance. */
  function Off(x: int, y: int, r: int): int {
    x * x + y * y - r * r
  }

  /** What the running error stands for. */
  function Decision(x: int, y: int, r: int): int {
    Off(x, y, r) + 2 * y - 2 * x + 1 + r
  }

  /** A point of the octant, closer to the circle than one pixel to its left or right. */
  predicate OnCircle(x: int, y: int, r: int) {
    && 0 <= y <= x && -r < Off(x, y, r) < r
    && Off(x - 1, y, r) < 0 < Off(x + 1, y, r)
  }

  /** The pixels of one iteration. */
  function Eight(x0: int, y0: int, x: int, y: int): (pixels: seq<(int, int)>)
    ensures |pixels| == 8
  {
    [(x + x0, y + y0), (y + x0, x + y0), (-x + x0, y + y0), (-y + x0, x + y0),
     (-x + x0, -y + y0), (-y + x0, -x + y0), (x + x0, -y + y0), (y + x0, -x + y0)]
  }

  /** The pixels of a whole octant. */
  function Mirrored(x0: int, y0: int, octant: seq<int>): seq<(int, int)> {
    if octant == [] then []
    else Mirrored(x0, y0, octant[..|octant| - 1]) + Eight(x0, y0, octant[|octant| - 1], |octant| - 1)
  }

  /** Going straight up keeps the error within the radius, and moves the decision by what the code adds. */
  lemma StepUp(x: int, y: int, r: int)
    requires 0 <= y <= x <= r && 1 - r <= Off(x, y, r) && Decision(x, y, r) < 0
    ensures 1 - r <= Off(x, y + 1, r) < r && Off(x - 1, y + 1, r) <= -r
    ensures Decision(x, y + 1, r) == Decision(x, y, r) + 2 * (y + 1) + 1
  {
    assert (y + 1) * (y + 1) == y * y + 2 * y + 1;
    assert (x - 1) * (x - 1) == x * x - 2 * x + 1;
  }

  lemma StepIn(x: int, y: int, r: int)
    requires 0 <= y <= x <= r && Off(x, y, r) < r && Off(x - 1, y, r) <= -r && 0 <= Decision(x, y, r)
    ensures 1 - r <= Off(x - 1, y + 1, r) && (y < x ==> Off(x - 1, y + 1, r) < r)
    ensures y + 1 < x ==> Off(x - 2, y + 1, r) <= -r
    ensures Decision(x - 1, y + 1, r) == Decision(x, y, r) + 2 * ((y + 1) - (x - 1) + 1)
  {
    assert (y + 1) * (y + 1) == y * y + 2 * y + 1;
    assert (x - 1) * (x - 1) == x * x - 2 * x + 1;
    assert (x - 2) * (x - 2) == x * x - 4 * x + 4;
  }

  /** In the octant an error below the radius is an error below one pixel. */
  lemma WithinOnePixel(x: int, y: int, r: int)
    requires 1 <= r && 0 <= y <= x <= r && -r < Off(x, y, r) < r
    ensures OnCircle(x, y, r)
  {
    Squares(y, x);
    Neighbours(x);
    assert r < 2 * x by {
      if 2 * x <= r { TooFarIn(x, r); }
    }
  }

  /** At less than half the radius a point of the octant is far inside the circle. */
  lemma TooFarIn(x: int, r: int)
    requires 0 <= 2 * x <= r
    ensures 2 * (x * x) <= r * r - r
  {
    Squares(2 * x, r);
    assert (2 * x) * (2 * x) == 4 * (x * x);
    if r >= 2 { Scale(2, r, r); }
  }

  lemma Neighbours(x: int)
    ensures (x - 1) * (x - 1) == x * x - 2 * x + 1 && (x + 1) * (x + 1) == x * x + 2 * x + 1
  {
  }

  lemma Squares(a: int, b: int)
    requires 0 <= a <= b
    ensures a * a <= b * b
  {
    Scale(a, b, a);
    Scale(a, b, b);
  }

  lemma Scale(a: int, b: int, c: int)
    requires a <= b && 0 <= c
    ensures a * c <= b * c
  {
  }

  /** Each row's `x` is the previous one or one less. */
  predicate Connected(octant: seq<int>) {
    forall k :: 0 < k < |octant| ==> octant[k] <= octant[k - 1] <= octant[k] + 1
  }

  /** The rows from 0 upwards have been plotted, all of them on the circle and as far in as the bound allows. */
  predicate Plotted(octant: seq<int>, r: int) {
    && (forall y: nat :: y < |octant| ==> OnCircle(octant[y], y, r) && Off(octant[y] - 1, y, r) <= -r)
    && Connected(octant) && (octant != [] ==> octant[0] == r)
  }

  /** Ready to plot row `y`, or past the end of the octant. */
  predicate Ready(octant: seq<int>, x: int, y: int, r: int) {
    && |octant| == y && y - 2 <= x <= r && 1 - r <= Off(x, y, r)
    && (y <= x ==> Off(x, y, r) < r && Off(x - 1, y, r) <= -r)
    && if y == 0 then x == r else x <= octant[y - 1] <= x + 1
  }

  lemma Extend(octant: seq<int>, x: int, y: int, r: int)
    requires r >= 1 && Plotted(octant, r) && Ready(octant, x, y, r) && y <= x
    ensures Plotted(octant + [x], r)
  {
    hide Off, OnCircle;
    assert OnCircle(x, y, r) by { WithinOnePixel(x, y, r); }
  }

  lemma Advance(octant: seq<int>, x: int, y: int, r: int)
    requires r >= 1 && Ready(octant, x, y, r) && y <= x
    ensures Decision(x, y, r) < 0 ==>
              Ready(octant + [x], x, y + 1, r) && Decision(x, y + 1, r) == Decision(x, y, r) + 2 * (y + 1) + 1
    ensures Decision(x, y, r) >= 0 ==> Ready(octant + [x], x - 1, y + 1, r)
    ensures Decision(x, y, r) >= 0 ==> Decision(x - 1, y + 1, r) == Decision(x, y, r) + 2 * ((y + 1) - (x - 1) + 1)
  {
    hide Off, Decision;
    assert (octant + [x])[y] == x;
    if Decision(x, y, r) < 0 {
      StepUp(x, y, r);
    } else {
      StepIn(x, y, r);
    }
  }

  lemma Leave(octant: seq<int>, x: int, y: int, r: int)
    requires r >= 1 && Plotted(octant, r) && Ready(octant, x, y, r) && x < y
    ensures octant != [] && Off(y - 1, y, r) > -r
  {
    if x >= 0 { Squares(x, y - 1); }
  }

  /** The body of the radius loop. `octant[y]` is the `x` plotted with `y`, the least off the circle by less than the
      radius. The rows go on as long as the octant does: behind the last one the least is not in the octant any
      more. Radius 0 is a single point. */
  method Draw(x0: int, y0: int, r: int) returns (pixels: seq<(int, int)>, octant: seq<int>)
    requires r >= 0
    ensures pixels == Mirrored(x0, y0, octant) && octant != []
    ensures r == 0 ==> octant == [0]
    ensures r >= 1 ==> Plotted(octant, r) && Off(|octant| - 1, |octant|, r) > -r
  {
    hide Off, OnCircle, Plotted, Ready, Decision, Eight;
    var x, y := r, 0;
    var radiusError := 1 - x;
    pixels, octant := [], [];
    if r >= 1 { Begin(r); }
    while x >= y
      invariant |octant| == y && pixels == Mirrored(x0, y0, octant)
      invariant r == 0 ==> if y == 0 then x == 0 && radiusError == 1 else x < y && octant == [0]
      invariant r >= 1 ==> radiusError == Decision(x, y, r)
      invariant r >= 1 ==> Plotted(octant, r) && Ready(octant, x, y, r)
      decreases x - y
    {
      if r >= 1 {
        Extend(octant, x, y, r);
        Advance(octant, x, y, r);
      }
      pixels := pixels + Eight(x0, y0, x, y);
      assert (octant + [x])[..y] == octant;
      octant := octant + [x];
      y := y + 1;
      if radiusError < 0 {
        radiusError := radiusError + 2 * y + 1;
      } else {
        x := x - 1;
        radiusError := radiusError + 2 * (y - x + 1);
      }
    }
    if r >= 1 { Leave(octant, x, y, r); }
  }

  /** This leaves no choice: there is one such octant for a radius. */
  lemma OctantUnique(octant: seq<int>, other: seq<int>, r: int)
    requires octant != [] && Plotted(octant, r) && Off(|octant| - 1, |octant|, r) > -r
    requires other != [] && Plotted(other, r) && Off(|other| - 1, |other|, r) > -r
    ensures octant == other
  {
    hide Off;
    forall y: nat | y < |octant| && y < |other| ensures octant[y] == other[y] {
      RowUnique(octant[y], other[y], y, r);
      RowUnique(other[y], octant[y], y, r);
    }
    NotLonger(octant, other, r);
    NotLonger(other, octant, r);
  }

  lemma RowUnique(x: int, x': int, y: int, r: int)
    requires 0 <= x && Off(x, y, r) > -r && Off(x' - 1, y, r) <= -r
    ensures x' <= x
  {
    if x < x' { Squares(x, x' - 1); }
  }

  lemma NotLonger(octant: seq<int>, other: seq<int>, r: int)
    requires octant != [] && Off(|octant| - 1, |octant|, r) > -r && Plotted(other, r)
    ensures |other| <= |octant|
  {
    hide Off;
    var n := |octant|;
    if n < |other| {
      assert OnCircle(other[n], n, r);
      RowUnique(n - 1, other[n], n, r);
    }
  }

  lemma Begin(r: int)
    requires r >= 1
    ensures Plotted([], r) && Ready([], r, 0, r) && Decision(r, 0, r) == 1 - r
  {
  }

  /** Every row of the octant is plotted in all eight octants, in this order. */
  lemma {:induction false} RowsPlotted(x0: int, y0: int, octant: seq<int>, y: nat)
    requires y < |octant|
    ensures var x := octant[y];
            |Mirrored(x0, y0, octant)| == 8 * |octant| && Mirrored(x0, y0, octant)[8 * y..8 * y + 8]
            == [(x0 + x, y0 + y), (x0 + y, y0 + x), (x0 - x, y0 + y), (x0 - y, y0 + x),
                (x0 - x, y0 - y), (x0 - y, y0 - x), (x0 + x, y0 - y), (x0 + y, y0 - x)]
  {
    hide Eight;
    var n := |octant| - 1;
    EightPerRow(x0, y0, octant[..n]);
    if y < n {
      RowsPlotted(x0, y0, octant[..n], y);
    }
    EightIs(x0, y0, octant[n], n);
    RowInParts(Mirrored(x0, y0, octant[..n]), Eight(x0, y0, octant[n], n), n, y);
  }

  lemma RowInParts(before: seq<(int, int)>, last: seq<(int, int)>, n: nat, y: nat)
    requires |before| == 8 * n && |last| == 8 && y <= n
    ensures (before + last)[8 * y..8 * y + 8] == if y < n then before[8 * y..8 * y + 8] else last
  {
  }

  lemma EightIs(x0: int, y0: int, x: int, y: int)
    ensures Eight(x0, y0, x, y) == [(x0 + x, y0 + y), (x0 + y, y0 + x), (x0 - x, y0 + y), (x0 - y, y0 + x),
                                    (x0 - x, y0 - y), (x0 - y, y0 - x), (x0 + x, y0 - y), (x0 + y, y0 - x)]
  {
  }

  lemma {:induction false} EightPerRow(x0: int, y0: int, octant: seq<int>)
    ensures |Mirrored(x0, y0, octant)| == 8 * |octant|
  {
    if octant == [] {
    } else {
      EightPerRow(x0, y0, octant[..|octant| - 1]);
    }
  }

  /** The pixels of a radius are the same on both sides of both axes and of both diagonals. */
  lemma {:induction false} EightfoldSymmetry(x0: int, y0: int, octant: seq<int>, a: int, b: int)
    requires (x0 + a, y0 + b) in Mirrored(x0, y0, octant)
    ensures (x0 + b, y0 + a) in Mirrored(x0, y0, octant)
    ensures (x0 - a, y0 + b) in Mirrored(x0, y0, octant)
    ensures (x0 + a, y0 - b) in Mirrored(x0, y0, octant)
  {
    var before := octant[..|octant| - 1];
    if (x0 + a, y0 + b) in Mirrored(x0, y0, before) {
      EightfoldSymmetry(x0, y0, before, a, b);
    }
  }

  lemma EightAlike(x0: int, y0: int, x: int, y: int, a: int, b: int)
    requires (x0 + a, y0 + b) in Eight(x0, y0, x, y)
    ensures a * a + b * b == x * x + y * y
  {
    assert (a in {x, -x} && b in {y, -y}) || (a in {y, -y} && b in {x, -x});
    assert (-x) * (-x) == x * x && (-y) * (-y) == y * y;
  }

  /** So every pixel of a plotted circle is off it by less than the radius, in every octant. */
  lemma {:induction false} EveryPixelIsNear(x0: int, y0: int, octant: seq<int>, r: int, a: int, b: int)
    requires Plotted(octant, r) && (x0 + a, y0 + b) in Mirrored(x0, y0, octant)
    ensures -r < Off(a, b, r) < r
  {
    hide Eight;
    var y := |octant| - 1;
    var before := octant[..y];
    if (x0 + a, y0 + b) in Mirrored(x0, y0, before) {
      EveryPixelIsNear(x0, y0, before, r, a, b);
    } else {
      assert OnCircle(octant[y], y, r);
      EightAlike(x0, y0, octant[y], y, a, b);
    }
  }
}
