/** Which pages have all of their tiles stored under both spellings of a size, `w,` and `w,h`. */
module Spellings {
  import opened Prelude
  import opened Rounding
  import opened ImageApi
  import opened Pyramid
  import opened BlobStorage
  import opened PageTiles

  // ----- pages every tile of which is found under both spellings -----

  /** Each tile's scale divides its width. */
  ghost predicate Divides(plans: seq<TilePlan>) {
    forall p | p in plans :: p.width % p.scale == 0
  }

  lemma MultipleLeavesNothing(k: nat, scale: Positive)
    ensures k * scale % scale == 0
  {
    DivIsUnique(k * scale, scale, k);
  }

  /** In a page `across` scales wide, a row starting on a multiple of the scale has only such tiles. */
  lemma {:induction false} RowDivides(across: nat, height: nat, tile: Positive, scale: Positive, m: nat, top: nat)
    requires top < height
    ensures Divides(Row(across * scale, height, Step(tile, scale), scale, m * scale, top))
    decreases across - m
  {
    MulStep(across, m, scale);
    if m < across {
      RowDivides(across, height, tile, scale, m + tile, top);
      NextStart(m, tile, scale);
      RegionDivides(across, tile, scale, m);
    }
  }

  lemma NextStart(m: nat, tile: Positive, scale: Positive)
    ensures (m + tile) * scale == m * scale + Step(tile, scale)
  {
  }

  lemma RegionDivides(across: nat, tile: Positive, scale: Positive, m: nat)
    requires m < across
    ensures Min(Step(tile, scale), across * scale - m * scale) % scale == 0
  {
    MulStep(tile, across - m, scale);
    MulStep(across - m, tile, scale);
    assert (across - m) * scale == across * scale - m * scale;
    MultipleLeavesNothing(tile, scale);
    MultipleLeavesNothing(across - m, scale);
  }

  lemma {:induction false} RowsDivide(across: nat, height: nat, tile: Positive, scale: Positive, top: nat)
    ensures Divides(Rows(across * scale, height, Step(tile, scale), scale, top))
    decreases height - top
  {
    if top < height {
      RowDivides(across, height, tile, scale, 0, top);
      assert 0 * scale == 0;
      RowsDivide(across, height, tile, scale, top + Step(tile, scale));
    }
  }

  lemma {:induction false} LevelsDivide(width: nat, height: nat, tile: Positive, factors: seq<Positive>)
    requires forall i | 0 <= i < |factors| :: width % factors[i] == 0
    ensures Divides(Levels(width, height, tile, factors))
  {
    if factors != [] {
      var scale := factors[0];
      assert width == width / scale * scale + width % scale;
      RowsDivide(width / scale, height, tile, scale, 0);
      LevelsDivide(width, height, tile, factors[1..]);
    }
  }

  // ----- exactly which levels agree -----

  ghost predicate LevelAgrees(width: nat, height: nat, tile: Positive, scale: Positive) {
    forall p | p in Level(width, height, tile, scale) && p.width > 0 :: SpellingsAgree(p.width, p.height, scale)
  }

  lemma DividedLevelAgrees(width: nat, height: nat, tile: Positive, scale: Positive)
    requires width % scale == 0
    ensures LevelAgrees(width, height, tile, scale)
  {
    assert width == width / scale * scale + width % scale;
    RowsDivide(width / scale, height, tile, scale, 0);
    RowsPlanned(width, height, Step(tile, scale), scale, 0);
    forall p | p in Level(width, height, tile, scale) && p.width > 0 ensures SpellingsAgree(p.width, p.height, scale) {
      assert p.scale == scale;
      AgreeWhenScaleDivides(p.width, p.height, scale);
    }
  }

  lemma StepKeepsRemainder(n: nat, tile: Positive, scale: Positive)
    requires Step(tile, scale) <= n
    ensures (n - Step(tile, scale)) % scale == n % scale
  {
    var step := Step(tile, scale);
    var q := n / scale;
    assert n == q * scale + n % scale;
    assert (q - tile) * scale == q * scale - step;
    DivIsUnique(n - step, scale, q - tile);
    assert n - step == (n - step) / scale * scale + (n - step) % scale;
  }

  /** The width of the last tile of a row. */
  function RaggedWidth(rest: nat, step: Positive): nat {
    if rest <= step then rest else RaggedWidth(rest - step, step)
  }

  lemma {:induction false} RaggedIsNoMultiple(rest: nat, tile: Positive, scale: Positive)
    requires rest % scale != 0
    ensures RaggedWidth(rest, Step(tile, scale)) > 0 && RaggedWidth(rest, Step(tile, scale)) % scale != 0
  {
    if rest > Step(tile, scale) {
      StepKeepsRemainder(rest, tile, scale);
      RaggedIsNoMultiple(rest - Step(tile, scale), tile, scale);
    }
  }

  lemma {:induction false} LastOfRow(width: nat, height: nat, step: Positive, scale: Positive, left: nat, top: nat)
    returns (p: TilePlan)
    requires left < width && top < height
    ensures p in Row(width, height, step, scale, left, top)
    ensures p.width == RaggedWidth(width - left, step) && p.height == Min(step, height - top)
    decreases width - left
  {
    if width - left <= step {
      p := PlanTile(width, height, step, scale, left, top);
    } else {
      p := LastOfRow(width, height, step, scale, left + step, top);
    }
  }

  /** On a page one tile and h pixels high, the second row ends in a tile of that height. */
  lemma RaggedCorner(width: nat, tile: Positive, scale: Positive, h: nat) returns (p: TilePlan)
    requires width > 0 && 0 < h <= Step(tile, scale)
    ensures p in Level(width, Step(tile, scale) + h, tile, scale)
    ensures p.width == RaggedWidth(width, Step(tile, scale)) && p.height == h
  {
    var step := Step(tile, scale);
    p := LastOfRow(width, step + h, step, scale, 0, step);
    assert p in Rows(width, step + h, step, scale, step);
  }

  /** A factor below another at which the page does not fit does not let it fit either. */
  lemma FitBoundsHeight(width: nat, height: nat, tile: Positive, last: nat, i: nat)
    requires Fits(width, height, tile, Doubled(1, last)) && height > Step(tile, Doubled(1, i))
    ensures i < last
  {
    if last < i {
      DoublingGrows(1, last, i);
    }
    MulStep(Doubled(1, last), Doubled(1, i), tile);
  }

  /** A page higher than a tile of a scale has that scale among its factors. */
  lemma HighPageHasFactor(width: nat, height: nat, tile: Positive, i: nat)
    requires height > Step(tile, Doubled(1, i))
    ensures Doubled(1, i) in Factors(width, height, tile)
  {
    FactorsArePowers(width, height, tile);
    var f := Factors(width, height, tile);
    FitBoundsHeight(width, height, tile, |f| - 1, i);
    assert f[i] == Doubled(1, i);
  }

  lemma DoubledIsEven(i: nat)
    requires i > 0
    ensures Doubled(1, i) % 2 == 0
  {
    DoubledTwice(1, i - 1);
  }

  lemma {:induction false} DoubledTwice(factor: Positive, n: nat)
    ensures Doubled(factor, n + 1) == 2 * Doubled(factor, n)
    decreases n
  {
    if n > 0 {
      DoubledTwice(2 * factor, n - 1);
    }
  }

  /** The page on which a level disagrees: at most two and a half scales hang over the first row of tiles. */
  lemma DisagreeingPage(width: nat, tile: Positive, i: nat) returns (height: nat)
    requires width > 0 && tile >= 3 && width % Doubled(1, i) != 0
    ensures Doubled(1, i) in Factors(width, height, tile) && !LevelAgrees(width, height, tile, Doubled(1, i))
  {
    var scale := Doubled(1, i);
    DoubledIsEven(i);
    var half := scale / 2;
    MulStep(3, tile, scale);
    RaggedIsNoMultiple(width, tile, scale);
    var p := RaggedCorner(width, tile, scale, 3 * half);
    var q := RaggedCorner(width, tile, scale, 5 * half);
    DisagreeingPlannedHeight(p.width, half);
    height := if SpellingsAgree(p.width, 3 * half, scale)
      then Step(tile, scale) + 5 * half else Step(tile, scale) + 3 * half;
    HighPageHasFactor(width, height, tile, i);
  }

  /**
   For each page width and scale: the two spellings name the same object for every tile of that
   scale, on all pages of that width that have it, exactly when the scale divides the page width.
   */
  lemma LevelsAgreeIffDivides(width: nat, tile: Positive, i: nat)
    requires width > 0 && tile >= 3
    ensures (forall height: nat | Doubled(1, i) in Factors(width, height, tile) ::
               LevelAgrees(width, height, tile, Doubled(1, i)))
       <==> width % Doubled(1, i) == 0
  {
    if width % Doubled(1, i) == 0 {
      forall height: nat ensures LevelAgrees(width, height, tile, Doubled(1, i)) {
        DividedLevelAgrees(width, height, tile, Doubled(1, i));
      }
    } else {
      var height := DisagreeingPage(width, tile, i);
    }
  }

  /** When every scale factor divides the page's width, every tile is stored under both of its spellings. */
  lemma DividingPageResolves(objects: map<Path, Blob>, root: Path, image: Image, tile: Positive, p: TilePlan)
    requires Holds(objects, PageWrites(root, image, tile)) && p in AllTiles(image.width, image.height, tile)
    requires var f := Factors(image.width, image.height, tile); forall i | 0 <= i < |f| :: image.width % f[i] == 0
    ensures Resolves(objects, root, p.Region(), p.Size(), TileBlob(image, p))
    ensures Resolves(objects, root, p.Region(), WidthOnly(Announced(p.width, p.scale)), TileBlob(image, p))
  {
    LevelsDivide(image.width, image.height, tile, Factors(image.width, image.height, tile));
    TileResolves(objects, root, image, tile, p);
    WidthOnlyResolves(objects, root, image, tile, p);
  }

  const DEFAULT_TILE_WIDTH := 2480
  const TILE_SIZE: Positive := 512

  lemma FirstFactors(i: nat)
    requires i <= 4
    ensures Doubled(1, i) == [1, 2, 4, 8, 16][i] && DEFAULT_TILE_WIDTH % Doubled(1, i) == 0
  {
    assert Doubled(1, 1) == Doubled(2, 0) == 2;
    assert Doubled(1, 2) == Doubled(2, 1) == Doubled(4, 0) == 4;
    assert Doubled(1, 3) == Doubled(2, 2) == Doubled(4, 1) == Doubled(8, 0) == 8;
    assert Doubled(1, 4) == Doubled(2, 3) == Doubled(4, 2) == Doubled(8, 1) == Doubled(16, 0) == 16;
  }

  /** That is so of every page rendered at the default width, up to 8192 pixels high. */
  lemma DefaultPagesDivide(height: nat)
    requires height <= 8192
    ensures var f := Factors(DEFAULT_TILE_WIDTH, height, TILE_SIZE);
            forall i | 0 <= i < |f| :: DEFAULT_TILE_WIDTH % f[i] == 0
  {
    var f := Factors(DEFAULT_TILE_WIDTH, height, TILE_SIZE);
    FactorsArePowers(DEFAULT_TILE_WIDTH, height, TILE_SIZE);
    FirstFactors(4);
    assert |f| > 4 ==> Fits(DEFAULT_TILE_WIDTH, height, TILE_SIZE, f[4]);
    forall i | 0 <= i < |f| ensures DEFAULT_TILE_WIDTH % f[i] == 0 {
      FirstFactors(i);
    }
  }
}
