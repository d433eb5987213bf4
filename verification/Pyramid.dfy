/** The tile pyramid of one page: scale factors, planned tiles, announced sizes. */
module Pyramid {
  import opened Prelude
  import opened Rounding
  import opened ImageApi

  /** One tile to produce: the source region and the scale it is rendered at, with their spellings. */
  datatype TilePlan = TilePlan(left: nat, top: nat, width: nat, height: nat, scale: Positive) {
    function Region(): string {
      RegionText(left, top, width, height)
    }

    function Size(): string {
      SizeText(Announced(width, scale), Announced(height, scale))
    }
  }

  datatype Size = Size(width: nat, height: nat)

  // ----- scale factors -----

  /** At this factor the whole page fits in one tile. */
  predicate Fits(width: nat, height: nat, tile: Positive, factor: Positive) {
    width <= tile * factor && height <= tile * factor
  }

  /** The factors from one on, doubling until the side of a full region reaches the span. */
  ghost function FactorsFrom(span: nat, side: Positive, factor: Positive): (factors: seq<Positive>)
    ensures factors != [] && factors[0] == factor
    decreases span - side
  {
    if span <= side then [factor] else [factor] + FactorsFrom(span, 2 * side, 2 * factor)
  }

  ghost function Factors(width: nat, height: nat, tile: Positive): (factors: seq<Positive>)
    ensures factors != [] && factors[0] == 1
  {
    FactorsFrom(Max(width, height), tile, 1)
  }

  method ScaleFactors(width: nat, height: nat, tile: Positive) returns (factors: seq<Positive>)
    ensures factors == Factors(width, height, tile)
  {
    factors := [1];
    var factor: Positive := 1;
    ghost var span, side: Positive := Max(width, height), tile;
    ghost var done: seq<Positive> := [];
    FitsWhenSideReaches(width, height, tile, factor, side);
    while !Fits(width, height, tile, factor)
      invariant side == tile * factor && (Fits(width, height, tile, factor) <==> span <= side)
      invariant factors == done + [factor]
      invariant done + FactorsFrom(span, side, factor) == Factors(width, height, tile)
      decreases span - side
    {
      MoveOver(done, factor, FactorsFrom(span, 2 * side, 2 * factor));
      SideDoubles(tile, factor, side);
      FitsWhenSideReaches(width, height, tile, 2 * factor, 2 * side);
      done, side := factors, 2 * side;
      factor := 2 * factor;
      factors := factors + [factor];
    }
  }

  lemma MoveOver(done: seq<Positive>, factor: Positive, rest: seq<Positive>)
    ensures done + ([factor] + rest) == (done + [factor]) + rest
  {
  }

  lemma SideDoubles(tile: Positive, factor: Positive, side: Positive)
    requires side == tile * factor
    ensures 2 * side == tile * (2 * factor)
  {
  }

  lemma FitsWhenSideReaches(width: nat, height: nat, tile: Positive, factor: Positive, side: Positive)
    requires side == tile * factor
    ensures Fits(width, height, tile, factor) <==> Max(width, height) <= side
  {
  }

  /** The factor doubled n times. */
  function Doubled(factor: Positive, n: nat): Positive
    decreases n
  {
    if n == 0 then factor else Doubled(2 * factor, n - 1)
  }

  lemma {:induction false} DoublingFactors(span: nat, side: Positive, factor: Positive)
    ensures var f := FactorsFrom(span, side, factor);
            && (forall i | 0 <= i < |f| :: f[i] == Doubled(factor, i))
            && (forall i | 0 <= i < |f| :: span <= Doubled(side, i) <==> i == |f| - 1)
    decreases span - side
  {
    if span > side {
      DoublingFactors(span, 2 * side, 2 * factor);
    }
  }

  lemma {:induction false} DoubledSide(tile: Positive, factor: Positive, n: nat)
    ensures tile * factor > 0 && Doubled(tile * factor, n) == tile * Doubled(factor, n)
    decreases n
  {
    MulStep(0, factor, tile);
    assert factor * tile == tile * factor;
    if n > 0 {
      DoubledSide(tile, 2 * factor, n - 1);
      assert tile * (2 * factor) == 2 * (tile * factor);
    }
  }

  /** The factors are the powers of two up to the least one at which the page fits in one tile. */
  lemma FactorsArePowers(width: nat, height: nat, tile: Positive)
    ensures var f := Factors(width, height, tile);
            && (forall i | 0 <= i < |f| :: f[i] == Doubled(1, i))
            && (forall i | 0 <= i < |f| :: Fits(width, height, tile, f[i]) <==> i == |f| - 1)
  {
    DoublingFactors(Max(width, height), tile, 1);
    var f := Factors(width, height, tile);
    forall i | 0 <= i < |f| ensures Fits(width, height, tile, f[i]) <==> i == |f| - 1 {
      DoubledSide(tile, 1, i);
    }
  }

  // ----- planned tiles -----

  function PlanTile(width: nat, height: nat, step: Positive, scale: Positive, left: nat, top: nat): TilePlan
    requires left < width && top < height
  {
    TilePlan(left, top, Min(step, width - left), Min(step, height - top), scale)
  }

  ghost function Row(width: nat, height: nat, step: Positive, scale: Positive, left: nat, top: nat): seq<TilePlan>
    requires top < height
    decreases width - left
  {
    if left >= width then []
    else [PlanTile(width, height, step, scale, left, top)] + Row(width, height, step, scale, left + step, top)
  }

  ghost function Rows(width: nat, height: nat, step: Positive, scale: Positive, top: nat): seq<TilePlan>
    decreases height - top
  {
    if top >= height then []
    else Row(width, height, step, scale, 0, top) + Rows(width, height, step, scale, top + step)
  }

  /** The side of a full tile's region at a scale factor. */
  function Step(tile: Positive, scale: Positive): (step: Positive)
    ensures step == tile * scale
  {
    DoubledSide(tile, scale, 0);
    tile * scale
  }

  /** All tiles planned for one scale factor. */
  ghost function Level(width: nat, height: nat, tile: Positive, scale: Positive): seq<TilePlan> {
    Rows(width, height, Step(tile, scale), scale, 0)
  }

  ghost function Levels(width: nat, height: nat, tile: Positive, factors: seq<Positive>): seq<TilePlan>
  {
    if factors == [] then []
    else Level(width, height, tile, factors[0]) + Levels(width, height, tile, factors[1..])
  }

  /** Every tile of the pyramid, in the order it is written. */
  ghost function AllTiles(width: nat, height: nat, tile: Positive): seq<TilePlan>
  {
    Levels(width, height, tile, Factors(width, height, tile))
  }

  method PlanTiles(width: nat, height: nat, tile: Positive) returns (plans: seq<TilePlan>)
    ensures plans == AllTiles(width, height, tile)
  {
    plans := [];
    var factors := ScaleFactors(width, height, tile);
    var k := 0;
    while k < |factors|
      invariant 0 <= k <= |factors|
      invariant plans + Levels(width, height, tile, factors[k..]) == AllTiles(width, height, tile)
    {
      var level := PlanLevel(width, height, Step(tile, factors[k]), factors[k]);
      assert factors[k..][1..] == factors[k + 1..];
      assert plans + (level + Levels(width, height, tile, factors[k + 1..]))
          == plans + level + Levels(width, height, tile, factors[k + 1..]);
      plans := plans + level;
      k := k + 1;
    }
  }

  /** The middle loop: rows from the top. */
  method PlanLevel(width: nat, height: nat, step: Positive, scale: Positive) returns (plans: seq<TilePlan>)
    ensures plans == Rows(width, height, step, scale, 0)
  {
    plans := [];
    var top := 0;
    while top < height
      invariant plans + Rows(width, height, step, scale, top) == Rows(width, height, step, scale, 0)
      decreases height - top
    {
      var row := PlanRow(width, height, step, scale, top);
      assert plans + (row + Rows(width, height, step, scale, top + step))
          == plans + row + Rows(width, height, step, scale, top + step);
      plans := plans + row;
      top := top + step;
    }
  }

  /** The inner loop: tiles from the left. */
  method PlanRow(width: nat, height: nat, step: Positive, scale: Positive, top: nat) returns (plans: seq<TilePlan>)
    requires top < height
    ensures plans == Row(width, height, step, scale, 0, top)
  {
    plans := [];
    var left := 0;
    while left < width
      invariant plans + Row(width, height, step, scale, left, top) == Row(width, height, step, scale, 0, top)
      decreases width - left
    {
      plans := plans + [PlanTile(width, height, step, scale, left, top)];
      left := left + step;
    }
  }

  // ----- each level is a partition of the page -----

  predicate Covers(p: TilePlan, x: int, y: int) {
    p.left <= x < p.left + p.width && p.top <= y < p.top + p.height
  }

  /** How many of the plans contain the pixel. */
  function Coverage(plans: seq<TilePlan>, x: int, y: int): nat {
    if plans == [] then 0 else (if Covers(plans[0], x, y) then 1 else 0) + Coverage(plans[1..], x, y)
  }

  lemma {:induction false} CoverageConcat(a: seq<TilePlan>, b: seq<TilePlan>, x: int, y: int)
    ensures Coverage(a + b, x, y) == Coverage(a, x, y) + Coverage(b, x, y)
  {
    if a == [] {
      assert a + b == b;
    } else {
      assert (a + b)[1..] == a[1..] + b;
      CoverageConcat(a[1..], b, x, y);
    }
  }

  lemma {:induction false} RowCoverage(width: nat, height: nat, step: Positive, scale: Positive, left: nat, top: nat,
      x: int, y: int)
    requires top < height
    ensures Coverage(Row(width, height, step, scale, left, top), x, y)
         == if left <= x < width && top <= y < Min(top + step, height) then 1 else 0
    decreases width - left
  {
    if left < width {
      RowCoverage(width, height, step, scale, left + step, top, x, y);
    }
  }

  lemma {:induction false} RowsCoverage(width: nat, height: nat, step: Positive, scale: Positive, top: nat, x: int,
      y: int)
    ensures Coverage(Rows(width, height, step, scale, top), x, y)
         == if 0 <= x < width && top <= y < height then 1 else 0
    decreases height - top
  {
    if top < height {
      RowCoverage(width, height, step, scale, 0, top, x, y);
      RowsCoverage(width, height, step, scale, top + step, x, y);
      CoverageConcat(Row(width, height, step, scale, 0, top), Rows(width, height, step, scale, top + step), x, y);
    }
  }

  /** At every scale each pixel of the page lies in exactly one region, and no region leaves the page. */
  lemma LevelIsPartition(width: nat, height: nat, tile: Positive, scale: Positive, x: int, y: int)
    ensures Coverage(Level(width, height, tile, scale), x, y) == if 0 <= x < width && 0 <= y < height then 1 else 0
  {
    RowsCoverage(width, height, Step(tile, scale), scale, 0, x, y);
  }

  /** The count is what it says: one means exactly one index covers the pixel. */
  lemma {:induction false} CoverageCounts(plans: seq<TilePlan>, x: int, y: int)
    ensures Coverage(plans, x, y) == 0 <==> forall i | 0 <= i < |plans| :: !Covers(plans[i], x, y)
    ensures Coverage(plans, x, y) == 1 ==> exists i | 0 <= i < |plans| ::
              Covers(plans[i], x, y) && forall j | 0 <= j < |plans| && j != i :: !Covers(plans[j], x, y)
  {
    if plans != [] {
      CoverageCounts(plans[1..], x, y);
      assert plans == [plans[0]] + plans[1..];
      if Coverage(plans, x, y) == 1 {
        if Covers(plans[0], x, y) {
          forall j | 0 <= j < |plans| && j != 0 ensures !Covers(plans[j], x, y) {
            assert plans[j] == plans[1..][j - 1];
          }
        } else {
          var i :| 0 <= i < |plans[1..]| && Covers(plans[1..][i], x, y)
            && forall j | 0 <= j < |plans[1..]| && j != i :: !Covers(plans[1..][j], x, y);
          forall j | 0 <= j < |plans| && j != i + 1 ensures !Covers(plans[j], x, y) {
            if j > 0 {
              assert plans[j] == plans[1..][j - 1];
            }
          }
          assert Covers(plans[i + 1], x, y);
        }
      }
    }
  }

  /** The last factor plans the whole page as one tile. */
  lemma LastLevelIsWholePage(width: nat, height: nat, tile: Positive)
    requires width > 0 && height > 0
    ensures var factors := Factors(width, height, tile);
            var last := factors[|factors| - 1];
            var whole := PlanTile(width, height, Step(tile, last), last, 0, 0);
            Level(width, height, tile, last) == [whole] && whole.width == width && whole.height == height
  {
    FactorsArePowers(width, height, tile);
    var factors := Factors(width, height, tile);
    var last := factors[|factors| - 1];
    var step := Step(tile, last);
    assert Row(width, height, step, last, step, 0) == [];
    assert Rows(width, height, step, last, step) == [];
  }

  // ----- how many tiles -----

  /** How many steps cover a length. */
  function CeilDiv(a: nat, b: nat): nat
    requires b > 0
  {
    if a == 0 then 0 else if a <= b then 1 else CeilDiv(a - b, b) + 1
  }

  lemma {:induction false} CeilDivIsCeiling(a: nat, b: nat)
    requires b > 0
    ensures a <= CeilDiv(a, b) * b < a + b
  {
    if a > b {
      CeilDivIsCeiling(a - b, b);
      OneMore(CeilDiv(a - b, b), b);
    }
  }

  lemma {:induction false} RowLength(width: nat, height: nat, step: Positive, scale: Positive, left: nat, top: nat)
    requires top < height
    ensures |Row(width, height, step, scale, left, top)| == CeilDiv(if left < width then width - left else 0, step)
    decreases width - left
  {
    if left < width {
      RowLength(width, height, step, scale, left + step, top);
    }
  }

  /** perRow tiles for each of the rows that a height needs. */
  function Grid(height: nat, step: Positive, perRow: nat): nat
  {
    if height == 0 then 0 else if height <= step then perRow else Grid(height - step, step, perRow) + perRow
  }

  lemma {:induction false} GridIsProduct(height: nat, step: Positive, perRow: nat)
    ensures Grid(height, step, perRow) == CeilDiv(height, step) * perRow
  {
    if height > step {
      GridIsProduct(height - step, step, perRow);
      OneMore(CeilDiv(height - step, step), perRow);
    }
  }

  lemma {:induction false} RowsLength(width: nat, height: nat, step: Positive, scale: Positive, top: nat)
    ensures |Rows(width, height, step, scale, top)|
         == Grid(if top < height then height - top else 0, step, CeilDiv(width, step))
    decreases height - top
  {
    if top < height {
      RowLength(width, height, step, scale, 0, top);
      RowsLength(width, height, step, scale, top + step);
    }
  }

  lemma OneMore(n: nat, m: nat)
    ensures (n + 1) * m == n * m + m
  {
  }

  /** Doubling the step halves the count, rounding up. */
  lemma {:induction false} CeilHalves(a: nat, step: Positive)
    ensures CeilDiv(a, 2 * step) == (CeilDiv(a, step) + 1) / 2
  {
    if a > 2 * step {
      CeilHalves(a - 2 * step, step);
      assert CeilDiv(a, step) == CeilDiv(a - 2 * step, step) + 2;
    }
  }

  lemma HalvesProduct(a: nat, b: nat)
    requires a > 0 && b > 0
    ensures 2 * ((a + 1) / 2 * ((b + 1) / 2)) <= a * b + 1
  {
    var c, d := (a + 1) / 2, (b + 1) / 2;
    Product(2 * c - 1, a, 2 * d - 1, b);
    OddProduct(c, d);
  }

  lemma OddProduct(c: int, d: int)
    requires c >= 1 && d >= 1
    ensures 2 * (c * d) <= (2 * c - 1) * (2 * d - 1) + 1
  {
    assert (c - 1) * (d - 1) >= 0;
    assert (c - 1) * (d - 1) == c * d - c - d + 1;
    assert (2 * c - 1) * (2 * d - 1) == 4 * (c * d) - 2 * c - 2 * d + 1;
  }

  lemma Product(x: nat, x': nat, y: nat, y': nat)
    requires x <= x' && y <= y'
    ensures x * y <= x' * y'
  {
    MulStep(x, x', y);
    MulStep(y, y', x');
    assert y * x' == x' * y && y' * x' == x' * y';
  }

  lemma LevelLength(width: nat, height: nat, tile: Positive, scale: Positive)
    ensures |Level(width, height, tile, scale)| ==
        CeilDiv(height, Step(tile, scale)) * CeilDiv(width, Step(tile, scale))
  {
    RowsLength(width, height, Step(tile, scale), scale, 0);
    GridIsProduct(height, Step(tile, scale), CeilDiv(width, Step(tile, scale)));
  }

  lemma {:induction false} LevelsBound(width: nat, height: nat, tile: Positive, factor: Positive)
    requires width > 0 && height > 0
    ensures var factors := FactorsFrom(Max(width, height), Step(tile, factor), factor);
            |Levels(width, height, tile, factors)|
              <= 2 * (CeilDiv(height, Step(tile, factor)) * CeilDiv(width, Step(tile, factor))) + |factors|
    decreases Max(width, height) - Step(tile, factor)
  {
    var step := Step(tile, factor);
    var factors := FactorsFrom(Max(width, height), step, factor);
    LevelLength(width, height, tile, factor);
    if Max(width, height) <= step {
      assert Levels(width, height, tile, factors[1..]) == [];
    } else {
      StepDoubles(tile, factor);
      LevelsBound(width, height, tile, 2 * factor);
      CeilHalves(width, step);
      CeilHalves(height, step);
      HalvesProduct(CeilDiv(height, step), CeilDiv(width, step));
    }
  }

  lemma StepDoubles(tile: Positive, factor: Positive)
    ensures Step(tile, 2 * factor) == 2 * Step(tile, factor)
  {
    assert tile * (2 * factor) == 2 * (tile * factor);
  }

  /** The pyramid has at most twice as many tiles as its finest level, plus one per factor. */
  lemma PyramidBound(width: nat, height: nat, tile: Positive)
    requires width > 0 && height > 0
    ensures |AllTiles(width, height, tile)|
         <= 2 * (CeilDiv(height, tile) * CeilDiv(width, tile)) + |Factors(width, height, tile)|
  {
    LevelsBound(width, height, tile, 1);
  }

  // ----- announced sizes -----

  ghost function Sizes(width: nat, height: nat, factors: seq<Positive>): (sizes: seq<Size>)
    ensures |sizes| == |factors|
    ensures forall i | 0 <= i < |factors| ::
              sizes[i] == Size(Announced(width, factors[i]), Announced(height, factors[i]))
  {
    seq(|factors|, i requires 0 <= i < |factors| => Size(Announced(width, factors[i]), Announced(height, factors[i])))
  }

  method DeclaredSizes(width: nat, height: nat, tile: Positive) returns (sizes: seq<Size>)
    ensures sizes == Sizes(width, height, Factors(width, height, tile))
  {
    var factors := ScaleFactors(width, height, tile);
    sizes := seq(|factors|, i requires 0 <= i < |factors| =>
        Size(Announced(width, factors[i]), Announced(height, factors[i])));
  }
}
