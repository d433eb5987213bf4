/**
 The level-0 spelling of an image request (IIIF Image API 3.0): which regions and sizes are
 accepted, the canonical `width,height` size (section 4.7), and the storage key of a tile.
 Keys are sequences of path segments; no segment contains a slash.
 */
module ImageApi {
  import opened Prelude
  import opened Strings
  import opened Decimal
  import opened Rounding

  type Path = seq<string>

  /** ZeroRegionWidth is the division error that a region of width zero provokes. */
  datatype TileError = UnknownTile | ZeroRegionWidth

  function RegionText(left: nat, top: nat, width: nat, height: nat): string {
    Join([ToText(left), ToText(top), ToText(width), ToText(height)], ",")
  }

  function SizeText(width: nat, height: nat): string {
    Join([ToText(width), ToText(height)], ",")
  }

  /** The `w,` spelling, which leaves the height to be deduced. */
  function WidthOnly(width: nat): string {
    Join([ToText(width), ""], ",")
  }

  predicate IsNumber(s: string) {
    s != "" && AllDigits(s)
  }

  predicate IsRegion(region: string) {
    || region == "full"
    || (var parts := Split(region, ',');
        |parts| == 4 && forall i | 0 <= i < 4 :: IsNumber(parts[i]))
  }

  predicate IsSize(size: string) {
    || size == "max"
    || (var parts := Split(size, ',');
        |parts| == 2 && IsNumber(parts[0]) && AllDigits(parts[1]))
  }

  /** The height a `w,` request gets: the region's height reduced like its width, never zero. */
  function DeducedHeight(regionWidth: nat, regionHeight: nat, width: nat): nat
    requires regionWidth > 0
  {
    Max(1, RoundDiv(regionHeight * width, regionWidth))
  }

  function CanonicalSize(region: string, size: string): Result<string, TileError>
    requires IsRegion(region) && IsSize(size)
  {
    if size == "max" then Ok(size)
    else
      var parts := Split(size, ',');
      if parts[1] != "" then Ok(size)
      else if region == "full" then Err(UnknownTile)
      else
        var numbers := Split(region, ',');
        var width := FromText(parts[0]);
        if FromText(numbers[2]) == 0 then Err(ZeroRegionWidth)
        else Ok(SizeText(width, DeducedHeight(FromText(numbers[2]), FromText(numbers[3]), width)))
  }

  function TileStorageKey(root: Path, region: string, size: string): Result<Path, TileError> {
    if !IsRegion(region) || !IsSize(size) then Err(UnknownTile)
    else match CanonicalSize(region, size)
      case Err(e) => Err(e)
      case Ok(canonical) => Ok(root + [region, canonical, "0", "default.webp"])
  }

  // ----- what is accepted -----

  /** A region is `full`, or four numbers with commas between them. */
  lemma RegionIff(region: string)
    ensures IsRegion(region) <==>
              || region == "full"
              || exists l, t, w, h :: IsNumber(l) && IsNumber(t) && IsNumber(w) && IsNumber(h)
                                      && region == Join([l, t, w, h], ",")
  {
    JoinSplit(region, ',');
    if IsRegion(region) && region != "full" {
      var parts := Split(region, ',');
      assert parts == [parts[0], parts[1], parts[2], parts[3]];
    }
    if l, t, w, h :| IsNumber(l) && IsNumber(t) && IsNumber(w) && IsNumber(h) && region == Join([l, t, w, h], ",") {
      var parts := [l, t, w, h];
      forall i | 0 <= i < 4 ensures Without(parts[i], ',') {
        assert IsNumber(parts[i]);
      }
      SplitJoin(parts, ',');
    }
  }

  /** A size is `max`, or a width and, after a comma, a height that may be left out. */
  lemma SizeIff(size: string)
    ensures IsSize(size) <==>
              size == "max" || exists w, h :: IsNumber(w) && (h == "" || IsNumber(h)) && size == Join([w, h], ",")
  {
    JoinSplit(size, ',');
    if IsSize(size) && size != "max" {
      var parts := Split(size, ',');
      assert parts == [parts[0], parts[1]];
    }
    if w, h :| IsNumber(w) && (h == "" || IsNumber(h)) && size == Join([w, h], ",") {
      SplitJoin([w, h], ',');
    }
  }

  /**
   A request has a key exactly when region and size are accepted, the height is there on the full page,
   and it is there or can be deduced, from a region that has a width, on any other.
   */
  lemma KeyIff(root: Path, region: string, size: string)
    ensures TileStorageKey(root, region, size).Ok? <==>
              && IsRegion(region) && IsSize(size)
              && (size == "max" || Split(size, ',')[1] != ""
                  || (region != "full" && FromText(Split(region, ',')[2]) != 0))
    ensures TileStorageKey(root, region, size) == Err(ZeroRegionWidth) <==>
              && IsRegion(region) && IsSize(size) && size != "max" && Split(size, ',')[1] == ""
              && region != "full" && FromText(Split(region, ',')[2]) == 0
    ensures TileStorageKey(root, region, size).Ok? ==>
              var key := TileStorageKey(root, region, size).value;
              && |key| == |root| + 4 && key[..|root|] == root && key[|root|] == region && IsSize(key[|root| + 1])
              && key[|root| + 2] == "0" && key[|root| + 3] == "default.webp"
              && (size == "max" || Split(size, ',')[1] != "" ==> key[|root| + 1] == size)
  {
    if IsRegion(region) && IsSize(size) && CanonicalSize(region, size).Ok? {
      CanonicalSizeIdempotent(region, size);
    }
  }

  // ----- the spellings read back as what was written -----

  lemma RegionReadsBack(left: nat, top: nat, width: nat, height: nat)
    ensures Split(RegionText(left, top, width, height), ',') ==
        [ToText(left), ToText(top), ToText(width), ToText(height)]
    ensures IsRegion(RegionText(left, top, width, height)) && RegionText(left, top, width, height) != "full"
  {
    var parts := [ToText(left), ToText(top), ToText(width), ToText(height)];
    forall i | 0 <= i < 4 ensures Without(parts[i], ',') {}
    SplitJoin(parts, ',');
    SplitWhole("full", ',');
  }

  lemma SizeReadsBack(width: nat, height: nat)
    ensures Split(SizeText(width, height), ',') == [ToText(width), ToText(height)]
    ensures IsSize(SizeText(width, height)) && SizeText(width, height) != "max"
  {
    SplitJoin([ToText(width), ToText(height)], ',');
    SplitWhole("max", ',');
  }

  lemma WidthOnlyReadsBack(width: nat)
    ensures Split(WidthOnly(width), ',') == [ToText(width), ""]
    ensures IsSize(WidthOnly(width)) && WidthOnly(width) != "max"
  {
    SplitJoin([ToText(width), ""], ',');
    SplitWhole("max", ',');
  }

  /** Two regions with one spelling are one region. */
  lemma RegionTextInjective(l: nat, t: nat, w: nat, h: nat, l': nat, t': nat, w': nat, h': nat)
    requires RegionText(l, t, w, h) == RegionText(l', t', w', h')
    ensures l == l' && t == t' && w == w' && h == h'
  {
    RegionReadsBack(l, t, w, h);
    RegionReadsBack(l', t', w', h');
    var parts := Split(RegionText(l, t, w, h), ',');
    assert parts[0] == ToText(l') && parts[1] == ToText(t') && parts[2] == ToText(w') && parts[3] == ToText(h');
    ToTextInjective(l, l');
    ToTextInjective(t, t');
    ToTextInjective(w, w');
    ToTextInjective(h, h');
  }

  lemma SizeTextInjective(w: nat, h: nat, w': nat, h': nat)
    requires SizeText(w, h) == SizeText(w', h')
    ensures w == w' && h == h'
  {
    SizeReadsBack(w, h);
    SizeReadsBack(w', h');
    var parts := Split(SizeText(w, h), ',');
    assert parts[0] == ToText(w') && parts[1] == ToText(h');
    ToTextInjective(w, w');
    ToTextInjective(h, h');
  }

  // ----- canonical sizes -----

  /** Canonicalising a second time changes nothing. */
  lemma CanonicalSizeIdempotent(region: string, size: string)
    requires IsRegion(region) && IsSize(size) && CanonicalSize(region, size).Ok?
    ensures var canonical := CanonicalSize(region, size).value;
            IsSize(canonical) && CanonicalSize(region, canonical) == Ok(canonical)
  {
    if size != "max" && Split(size, ',')[1] == "" {
      var numbers := Split(region, ',');
      var width := FromText(Split(size, ',')[0]);
      SizeReadsBack(width, DeducedHeight(FromText(numbers[2]), FromText(numbers[3]), width));
    }
  }

  /** What each spelling of a size becomes on a numeric region. */
  lemma CanonicalSpellings(left: nat, top: nat, width: nat, height: nat, w: nat, h: nat)
    requires width > 0
    ensures IsRegion(RegionText(left, top, width, height)) && IsSize(SizeText(w, h)) && IsSize(WidthOnly(w))
    ensures CanonicalSize(RegionText(left, top, width, height), SizeText(w, h)) == Ok(SizeText(w, h))
    ensures CanonicalSize(RegionText(left, top, width, height), WidthOnly(w))
         == Ok(SizeText(w, DeducedHeight(width, height, w)))
  {
    RegionReadsBack(left, top, width, height);
    SizeReadsBack(w, h);
    WidthOnlyReadsBack(w);
    RoundTrip(w);
    RoundTrip(width);
    RoundTrip(height);
  }

  /** A full-page size must state its height; with one, it is its own canonical form. */
  lemma FullPageSpellings(w: nat, h: nat)
    ensures IsRegion("full") && IsSize("max") && IsSize(SizeText(w, h)) && IsSize(WidthOnly(w))
    ensures CanonicalSize("full", "max") == Ok("max")
    ensures CanonicalSize("full", SizeText(w, h)) == Ok(SizeText(w, h))
    ensures CanonicalSize("full", WidthOnly(w)) == Err(UnknownTile)
  {
    SizeReadsBack(w, h);
    WidthOnlyReadsBack(w);
  }

  // ----- one object, two roundings -----

  /** A side of n pixels as announced at a scale factor: rounded, never zero. */
  function Announced(n: nat, scale: nat): nat
    requires scale > 0
  {
    Max(1, RoundDiv(n, scale))
  }

  /** The pixels actually rendered for that side: floor division, never zero. */
  function Rendered(n: nat, scale: nat): nat
    requires scale > 0
  {
    Max(1, n / scale)
  }

  /** The height deduced from the announced width is the announced height. */
  predicate SpellingsAgree(width: nat, height: nat, scale: nat)
    requires width > 0 && scale > 0
  {
    DeducedHeight(width, height, Announced(width, scale)) == Announced(height, scale)
  }

  lemma AgreeWhenScaleDivides(width: nat, height: nat, scale: nat)
    requires width > 0 && scale > 0 && width % scale == 0
    ensures SpellingsAgree(width, height, scale)
  {
    var w := width / scale;
    assert width == w * scale;
    RoundExact(w, scale);
    assert w >= 1;
    assert height * w * scale == height * width;
    RoundSameQuotient(height * w, width, height, scale);
  }

  /**
   The two spellings of a region of this width name the same object whatever its height
   exactly when the scale factor divides the width.
   */
  lemma AgreeForEveryHeight(width: nat, scale: nat)
    requires width > 0 && scale > 0
    ensures (forall height: nat :: SpellingsAgree(width, height, scale)) <==> width % scale == 0
  {
    if width % scale == 0 {
      forall height: nat ensures SpellingsAgree(width, height, scale) {
        AgreeWhenScaleDivides(width, height, scale);
      }
    } else {
      DisagreeingHeight(width, scale);
    }
  }

  /** A witness for any scale: at height width * scale both quotients are whole numbers, and they differ. */
  lemma DisagreeingHeight(width: nat, scale: nat)
    requires width > 0 && scale > 0 && width % scale != 0
    ensures !SpellingsAgree(width, width * scale, scale)
  {
    var w := Announced(width, scale);
    WholeQuotients(width, scale, w);
    NoMultiple(width, scale, w);
  }

  lemma WholeQuotients(width: nat, scale: nat, w: nat)
    requires width > 0 && scale > 0 && w > 0
    ensures RoundDiv(width * scale * w, width) == scale * w > 0
    ensures RoundDiv(width * scale, scale) == width
  {
    Reorder(width, scale, w);
    RoundExact(scale * w, width);
    RoundExact(width, scale);
    MulStep(1, scale, w);
  }

  lemma NoMultiple(n: nat, b: nat, k: nat)
    requires b > 0 && n % b != 0
    ensures b * k != n
  {
    MulStep(k, n / b, b);
    MulStep(n / b, k, b);
    assert n == n / b * b + n % b;
    assert b * k == k * b;
  }

  // ----- the same for the heights a level really has -----

  /** At one and a half times and at two and a half times the scale the announced height is 2: both ties go to even. */
  lemma TiesAnnouncedAsTwo(half: nat)
    requires half > 0
    ensures Announced(3 * half, 2 * half) == 2 && Announced(5 * half, 2 * half) == 2
  {
    RoundingIsUnique(3 * half, 2 * half, 2);
    RoundingIsUnique(5 * half, 2 * half, 2);
  }

  /** Being deduced as 2 from below keeps w scales at or above the width, from above at or below it. */
  lemma DeducedAsTwo(width: nat, half: nat, w: nat)
    requires width > 0
    ensures DeducedHeight(width, 3 * half, w) == 2 ==> width <= 2 * half * w
    ensures DeducedHeight(width, 5 * half, w) == 2 ==> 2 * half * w <= width
  {
    Triple(half, w);
    if DeducedHeight(width, 3 * half, w) == 2 {
      RoundedToTwo(3 * half * w, width);
    }
    if DeducedHeight(width, 5 * half, w) == 2 {
      RoundedToTwo(5 * half * w, width);
    }
  }

  lemma Triple(half: nat, w: nat)
    ensures 3 * half * w == 3 * (half * w) && 5 * half * w == 5 * (half * w) && 2 * half * w == 2 * (half * w)
  {
  }

  lemma RoundedToTwo(a: nat, b: nat)
    requires b > 0 && RoundDiv(a, b) == 2
    ensures 3 * b <= 2 * a <= 5 * b
  {
    assert IsRounding(a, b, 2);
  }

  /** Two heights of at most two and a half scales, one of which the two spellings disagree on. */
  lemma DisagreeingPlannedHeight(width: nat, half: nat)
    requires width > 0 && half > 0 && width % (2 * half) != 0
    ensures !SpellingsAgree(width, 3 * half, 2 * half) || !SpellingsAgree(width, 5 * half, 2 * half)
  {
    var w := Announced(width, 2 * half);
    TiesAnnouncedAsTwo(half);
    DeducedAsTwo(width, half, w);
    NoMultiple(width, 2 * half, w);
  }

  /**
   The two spellings of regions of this width name the same objects at every height a planned
   region can have, up to a tile of the scale, exactly when the scale divides the width.
   */
  lemma AgreeForPlannedHeights(width: nat, tile: nat, scale: nat)
    requires width > 0 && tile >= 3 && (scale == 1 || (scale > 0 && scale % 2 == 0))
    ensures (forall height: nat | 0 < height <= tile * scale :: SpellingsAgree(width, height, scale))
       <==> width % scale == 0
  {
    if width % scale == 0 {
      forall height: nat | 0 < height <= tile * scale ensures SpellingsAgree(width, height, scale) {
        AgreeWhenScaleDivides(width, height, scale);
      }
    } else {
      var half := scale / 2;
      DisagreeingPlannedHeight(width, half);
      MulStep(3, tile, scale);
    }
  }

  /** On an ordinary page, 513 pixels by 700, the overview is stored as 256,350 and looked up as 256,349. */
  lemma OverviewSpelledTwoWays()
    ensures Announced(513, 2) == 256 && Announced(700, 2) == 350
    ensures var region := RegionText(0, 0, 513, 700);
            && IsRegion(region) && IsSize(WidthOnly(256))
            && CanonicalSize(region, WidthOnly(256)) == Ok(SizeText(256, 349))
            && SizeText(256, 349) != SizeText(256, 350)
  {
    CanonicalSpellings(0, 0, 513, 700, 256, 350);
    if SizeText(256, 349) == SizeText(256, 350) {
      SizeTextInjective(256, 349, 256, 350);
    }
  }

  /** Off by at most height / width + 1 rows, multiplied out; equality is not promised. */
  lemma DeducedHeightError(width: nat, height: nat, scale: nat)
    requires width > 0 && height > 0 && scale > 0
    ensures var off := DeducedHeight(width, height, Announced(width, scale)) - Announced(height, scale);
            -(height as int + width) <= off * width <= height + width
  {
    var w := Announced(width, scale);
    var a, b := RoundDiv(height * w, width), RoundDiv(height, scale);
    AnnouncedError(width, scale);
    CrossError(width, height, scale, w, a, b);
    MaxIsLipschitz(a, b, width, height + width);
  }

  /** The announced side is less than one pixel away from the exact one. */
  lemma AnnouncedError(n: nat, scale: nat)
    requires n > 0 && scale > 0
    ensures -(scale as int) <= Announced(n, scale) * scale - n <= scale
  {
    var r := RoundDiv(n, scale);
    assert IsRounding(n, scale, r);
    if r == 0 {
      assert Announced(n, scale) * scale == scale;
    }
  }

  /** The two heights before the floor of one row, compared through their common exact value. */
  lemma CrossError(width: int, height: int, scale: int, w: int, a: int, b: int)
    requires width > 0 && height > 0 && scale > 0
    requires -scale <= w * scale - width <= scale
    requires -width <= 2 * (a * width - height * w) <= width
    requires -scale <= 2 * (b * scale - height) <= scale
    ensures -(height + width) <= (a - b) * width <= height + width
  {
    CrossIdentity(width, height, scale, w, a, b);
    HalfBounded(a * width - height * w, width, scale);
    Bounded(w * scale - width, scale, height);
    HalfBounded(b * scale - height, scale, width);
    SumOfSides(height, width, scale);
    Divide((a - b) * width, height + width, scale);
  }

  lemma HalfBounded(x: int, bound: int, factor: int)
    requires -bound <= 2 * x <= bound && factor >= 0
    ensures -(bound * factor) <= 2 * (x * factor) <= bound * factor
  {
    Bounded(2 * x, bound, factor);
    assert 2 * x * factor == 2 * (x * factor);
  }

  lemma SumOfSides(height: int, width: int, scale: int)
    ensures (height + width) * scale == scale * height + width * scale
    ensures width * scale == scale * width
  {
  }

  lemma CrossIdentity(width: int, height: int, scale: int, w: int, a: int, b: int)
    ensures (a - b) * width * scale
         == (a * width - height * w) * scale + (w * scale - width) * height - (b * scale - height) * width
  {
    var aws, bws, hws, hw := a * width * scale, b * width * scale, height * w * scale, height * width;
    assert (a - b) * width == a * width - b * width;
    assert (a * width - b * width) * scale == aws - bws;
    assert (a * width - height * w) * scale == aws - hws;
    assert w * scale * height == hws by { Reorder(w, scale, height); Reorder(scale, height, w); }
    assert (w * scale - width) * height == hws - hw;
    assert b * scale * width == bws by { Swap(b, scale, width); }
    assert (b * scale - height) * width == bws - hw;
  }

  lemma Reorder(x: int, y: int, z: int)
    ensures x * y * z == y * z * x
  {
    assert x * y * z == x * (y * z);
  }

  lemma Swap(x: int, y: int, z: int)
    ensures x * y * z == x * z * y
  {
    assert x * y * z == x * (y * z);
    assert x * z * y == x * (z * y);
  }

  lemma Bounded(x: int, bound: int, factor: int)
    requires -bound <= x <= bound && factor >= 0
    ensures -(bound * factor) <= x * factor <= bound * factor
  {
    MulStep(x, bound, factor);
    MulStep(-bound, x, factor);
    assert -bound * factor == -(bound * factor);
  }

  lemma Divide(x: int, bound: int, factor: int)
    requires factor > 0 && -(bound * factor) <= x * factor <= bound * factor
    ensures -bound <= x <= bound
  {
    MulStep(bound, x, factor);
    MulStep(x, -bound, factor);
    assert -bound * factor == -(bound * factor);
  }

  /** The floor of one row moves neither height away from the other. */
  lemma MaxIsLipschitz(a: nat, b: nat, width: nat, bound: int)
    requires width > 0 && bound >= width
    requires -bound <= (a - b) * width <= bound
    ensures -bound <= (Max(1, a) - Max(1, b)) * width <= bound
  {
    if a == 0 && b > 0 {
      MulStep(0, b - 1, width);
      Difference(0, b, width);
      Difference(1, b, width);
    } else if b == 0 && a > 0 {
      MulStep(0, a - 1, width);
      Difference(a, 0, width);
      Difference(a, 1, width);
    }
  }

  lemma Difference(a: nat, b: nat, width: nat)
    ensures (a - b) * width == a * width - b * width
    ensures 0 * width == 0 && 1 * width == width
    ensures (b - 1) * width == b * width - width && (a - 1) * width == a * width - width
  {
  }

  /** Floor and rounding differ by at most one pixel, and not at all when the scale divides. */
  lemma RenderedNearAnnounced(n: nat, scale: nat)
    requires scale > 0
    ensures Rendered(n, scale) <= Announced(n, scale) <= Rendered(n, scale) + 1
    ensures n % scale == 0 ==> Rendered(n, scale) == Announced(n, scale)
  {
    RoundingIsUnique(n, scale, RoundDiv(n, scale));
    var q := n / scale;
    assert n == q * scale + n % scale;
  }
}
