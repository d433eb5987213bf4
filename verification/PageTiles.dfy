/** Writing a page's tiles, and what a reader can then resolve. */
module PageTiles {
  import opened Prelude
  import opened Rounding
  import opened ImageApi
  import opened Pyramid
  import opened BlobStorage

  /** A rendered page image, known by its origin and pixel size. */
  datatype Image = Image(source: int, width: nat, height: nat)

  /** What an object holds, up to the encoder: a resampled region, the page whole or resampled, or info.json. */
  datatype Blob =
    | Crop(image: Image, left: nat, top: nat, width: nat, height: nat, pixels: Size)
    | Whole(image: Image)
    | Resized(image: Image, pixels: Size)
    | Info(width: nat, height: nat, tile: Positive, scaleFactors: seq<Positive>, sizes: seq<Size>)

  function TileBlob(image: Image, p: TilePlan): Blob
  {
    Crop(image, p.left, p.top, p.width, p.height,
         if p.scale > 1 then Size(Rendered(p.width, p.scale), Rendered(p.height, p.scale)) else Size(p.width, p.height))
  }

  function SizeBlob(image: Image, size: Size): Blob {
    if size.width == image.width then Whole(image) else Resized(image, size)
  }

  function ObjectKey(root: Path, region: string, size: string): Path {
    root + [region, size, "0", "default.webp"]
  }

  function TileKey(root: Path, p: TilePlan): Path {
    ObjectKey(root, p.Region(), p.Size())
  }

  function SizeKey(root: Path, size: Size): Path {
    ObjectKey(root, "full", SizeText(size.width, size.height))
  }

  function InfoKey(root: Path): Path {
    root + ["info.json"]
  }

  // ----- planned tiles and their keys -----

  ghost predicate IsPow2(n: nat) {
    exists i: nat :: n == Doubled(1, i)
  }

  ghost predicate IsPlanned(p: TilePlan, width: nat, height: nat, tile: Positive) {
    && p.left < width && p.top < height
    && IsPow2(p.scale)
    && p == PlanTile(width, height, Step(tile, p.scale), p.scale, p.left, p.top)
  }

  lemma {:induction false} RowPlanned(width: nat, height: nat, step: Positive, scale: Positive, left: nat, top: nat)
    requires top < height
    ensures forall p | p in Row(width, height, step, scale, left, top) ::
              p.scale == scale && p.left < width && p.top < height &&
                  p == PlanTile(width, height, step, scale, p.left, p.top)
    decreases width - left
  {
    if left < width {
      RowPlanned(width, height, step, scale, left + step, top);
    }
  }

  lemma {:induction false} RowsPlanned(width: nat, height: nat, step: Positive, scale: Positive, top: nat)
    ensures forall p | p in Rows(width, height, step, scale, top) ::
              p.scale == scale && p.left < width && p.top < height &&
                  p == PlanTile(width, height, step, scale, p.left, p.top)
    decreases height - top
  {
    if top < height {
      RowPlanned(width, height, step, scale, 0, top);
      RowsPlanned(width, height, step, scale, top + step);
    }
  }

  lemma {:induction false} LevelsPlanned(width: nat, height: nat, tile: Positive, factors: seq<Positive>)
    requires forall i | 0 <= i < |factors| :: IsPow2(factors[i])
    ensures forall p | p in Levels(width, height, tile, factors) :: IsPlanned(p, width, height, tile)
  {
    if factors != [] {
      RowsPlanned(width, height, Step(tile, factors[0]), factors[0], 0);
      LevelsPlanned(width, height, tile, factors[1..]);
    }
  }

  lemma PyramidPlanned(width: nat, height: nat, tile: Positive)
    ensures forall p | p in AllTiles(width, height, tile) :: IsPlanned(p, width, height, tile)
  {
    FactorsArePowers(width, height, tile);
    var factors := Factors(width, height, tile);
    forall i | 0 <= i < |factors| ensures IsPow2(factors[i]) {
      assert factors[i] == Doubled(1, i);
    }
    LevelsPlanned(width, height, tile, factors);
  }

  lemma {:induction false} DoublingGrows(factor: Positive, i: nat, j: nat)
    requires i < j
    ensures 2 * Doubled(factor, i) <= Doubled(factor, j)
    decreases j
  {
    if i > 0 {
      DoublingGrows(2 * factor, i - 1, j - 1);
    } else if j > 1 {
      DoublingGrows(2 * factor, 0, j - 1);
    }
  }

  /** A side announced alike at two different factors is rendered as a single pixel at both. */
  lemma AnnouncedAlike(n: nat, s: nat, s': nat)
    requires n > 0 && s > 0 && 2 * s <= s'
    requires Announced(n, s) == Announced(n, s')
    ensures Rendered(n, s) == 1 && Rendered(n, s') == 1
  {
    var v, v' := RoundDiv(n, s), RoundDiv(n, s');
    assert IsRounding(n, s, v) && IsRounding(n, s', v');
    Multiples(v, s, s');
    Squeeze(n, s, s', v, v * s, v * s');
    SmallQuotient(n, s);
    SmallQuotient(n, s');
  }

  lemma Multiples(v: nat, s: nat, s': nat)
    requires 2 * s <= s'
    ensures 2 * (v * s) <= v * s'
    ensures v <= 1 ==> v * s <= s
    ensures v >= 2 ==> v * s >= 2 * s && v * s' >= 2 * s'
  {
    MulStep(2 * s, s', v);
    MulStep(v, 1, s);
    MulStep(2, v, s);
    MulStep(2, v, s');
    assert 2 * s * v == 2 * (v * s) && s' * v == v * s';
  }

  /** Two or more pixels cannot be nearest to both quotients. */
  lemma Squeeze(n: int, s: int, s': int, v: int, vs: int, vs': int)
    requires s > 0 && 2 * s <= s' && 2 * vs <= vs'
    requires v <= 1 ==> vs <= s
    requires v >= 2 ==> vs >= 2 * s && vs' >= 2 * s'
    requires 2 * (vs - n) >= -s && (v >= 2 ==> 2 * (vs' - n) <= s')
    ensures n < 2 * s
  {
  }

  lemma SmallQuotient(n: nat, s: nat)
    requires s > 0 && n < 2 * s
    ensures Rendered(n, s) == 1
  {
    DivIsUnique(n, s, if n < s then 0 else 1);
  }

  /** Two planned tiles share a key only if they hold the same region at the same pixel size. */
  lemma SameKeySameBlob(image: Image, tile: Positive, root: Path, p: TilePlan, q: TilePlan)
    requires IsPlanned(p, image.width, image.height, tile) && IsPlanned(q, image.width, image.height, tile)
    requires TileKey(root, p) == TileKey(root, q)
    ensures TileBlob(image, p) == TileBlob(image, q)
  {
    assert TileKey(root, p)[|root|] == p.Region() && TileKey(root, p)[|root| + 1] == p.Size();
    assert TileKey(root, q)[|root|] == q.Region() && TileKey(root, q)[|root| + 1] == q.Size();
    RegionTextInjective(p.left, p.top, p.width, p.height, q.left, q.top, q.width, q.height);
    SizeTextInjective(Announced(p.width, p.scale), Announced(p.height, p.scale),
                      Announced(q.width, q.scale), Announced(q.height, q.scale));
    var i: nat :| p.scale == Doubled(1, i);
    var j: nat :| q.scale == Doubled(1, j);
    if i < j {
      DoublingGrows(1, i, j);
      AnnouncedAlike(p.width, p.scale, q.scale);
      AnnouncedAlike(p.height, p.scale, q.scale);
    } else if j < i {
      DoublingGrows(1, j, i);
      AnnouncedAlike(p.width, q.scale, p.scale);
      AnnouncedAlike(p.height, q.scale, p.scale);
    }
    RenderedPixels(image, p);
    RenderedPixels(image, q);
  }

  lemma RenderedPixels(image: Image, p: TilePlan)
    requires p.width > 0 && p.height > 0
    ensures TileBlob(image, p).pixels == Size(Rendered(p.width, p.scale), Rendered(p.height, p.scale))
  {
  }

  // ----- writing -----

  /** One object written: its key and its content. */
  type Write = (Path, Blob)

  ghost function StoreAll(objects: map<Path, Blob>, writes: seq<Write>): map<Path, Blob> {
    if writes == [] then objects
    else StoreAll(objects, writes[..|writes| - 1])[writes[|writes| - 1].0 := writes[|writes| - 1].1]
  }

  lemma {:induction false} StoreAllConcat(objects: map<Path, Blob>, a: seq<Write>, b: seq<Write>)
    ensures StoreAll(StoreAll(objects, a), b) == StoreAll(objects, a + b)
  {
    if b == [] {
      assert a + b == a;
    } else {
      assert (a + b)[..|a + b| - 1] == a + b[..|b| - 1];
      StoreAllConcat(objects, a, b[..|b| - 1]);
    }
  }

  lemma StoreAllFour(objects: map<Path, Blob>, a: seq<Write>, b: seq<Write>, c: seq<Write>, d: seq<Write>)
    ensures StoreAll(StoreAll(StoreAll(StoreAll(objects, a), b), c), d) == StoreAll(objects, a + b + c + d)
  {
    StoreAllConcat(objects, a, b);
    StoreAllConcat(objects, a + b, c);
    StoreAllConcat(objects, a + b + c, d);
  }

  function TileWrites(root: Path, image: Image, plans: seq<TilePlan>): seq<Write> {
    seq(|plans|, i requires 0 <= i < |plans| => (TileKey(root, plans[i]), TileBlob(image, plans[i])))
  }

  function SizeWrites(root: Path, image: Image, sizes: seq<Size>): seq<Write> {
    seq(|sizes|, i requires 0 <= i < |sizes| => (SizeKey(root, sizes[i]), SizeBlob(image, sizes[i])))
  }

  function FullWrite(root: Path, image: Image): Write {
    (ObjectKey(root, "full", "max"), Whole(image))
  }

  ghost function DeclaredFor(image: Image, tile: Positive): seq<Size> {
    Sizes(image.width, image.height, Factors(image.width, image.height, tile))
  }

  ghost function InfoFor(image: Image, tile: Positive): Blob {
    Info(image.width, image.height, tile, Factors(image.width, image.height, tile), DeclaredFor(image, tile))
  }

  /** Everything written for a page, in order: tiles, the whole page, its announced sizes, info.json. */
  ghost function PageWrites(root: Path, image: Image, tile: Positive): seq<Write> {
    TileWrites(root, image, AllTiles(image.width, image.height, tile)) + [FullWrite(root, image)]
    + SizeWrites(root, image, DeclaredFor(image, tile)) + [(InfoKey(root), InfoFor(image, tile))]
  }

  method WritePageTiles(storage: Storage<Blob>, root: Path, image: Image, tile: Positive)
      returns (info: Blob, thumbnail: Path)
    modifies storage
    ensures storage.objects == StoreAll(old(storage.objects), PageWrites(root, image, tile))
    ensures info == InfoFor(image, tile)
    ensures thumbnail == SizeKey(root, DeclaredFor(image, tile)[|DeclaredFor(image, tile)| - 1])
  {
    var plans := PlanTiles(image.width, image.height, tile);
    StoreEach(storage, TileWrites(root, image, plans));
    StoreEach(storage, [FullWrite(root, image)]);
    var factors, sizes := WriteSizes(storage, root, image, tile);
    thumbnail := SizeKey(root, sizes[|sizes| - 1]);
    info := Info(image.width, image.height, tile, factors, sizes);
    StoreEach(storage, [(InfoKey(root), info)]);
    StoreAllFour(old(storage.objects), TileWrites(root, image, plans), [FullWrite(root, image)],
                 SizeWrites(root, image, sizes), [(InfoKey(root), info)]);
  }

  method WriteSizes(storage: Storage<Blob>, root: Path, image: Image, tile: Positive)
      returns (factors: seq<Positive>, sizes: seq<Size>)
    modifies storage
    ensures factors == Factors(image.width, image.height, tile) && sizes == DeclaredFor(image, tile) && sizes != []
    ensures storage.objects == StoreAll(old(storage.objects), SizeWrites(root, image, sizes))
  {
    factors := ScaleFactors(image.width, image.height, tile);
    sizes := DeclaredSizes(image.width, image.height, tile);
    StoreEach(storage, SizeWrites(root, image, sizes));
  }

  /** The writing loops: every object at its exact key, in order. */
  method StoreEach(storage: Storage<Blob>, writes: seq<Write>)
    modifies storage
    ensures storage.objects == StoreAll(old(storage.objects), writes)
  {
    for i := 0 to |writes|
      invariant storage.objects == StoreAll(old(storage.objects), writes[..i])
    {
      assert writes[..i + 1][..i] == writes[..i];
      storage.SaveStream(writes[i].0, writes[i].1);
    }
    assert writes[..|writes|] == writes;
  }

  /** The tiling step: the previous tree goes before the new one is written. */
  method TilePage(storage: Storage<Blob>, root: Path, image: Image, tile: Positive)
      returns (info: Blob, thumbnail: Path)
    modifies storage
    ensures storage.objects == StoreAll(Pruned(old(storage.objects), root), PageWrites(root, image, tile))
    ensures info == InfoFor(image, tile)
    ensures thumbnail == SizeKey(root, DeclaredFor(image, tile)[|DeclaredFor(image, tile)| - 1])
    ensures ShowsImage(storage.objects, root, image, tile)
    ensures thumbnail in storage.objects
  {
    ghost var before := storage.objects;
    var removed := storage.DeletePrefix(root);
    info, thumbnail := WritePageTiles(storage, root, image, tile);
    TilingShowsImage(before, root, image, tile);
    TilingReplacesTree(before, root, image, tile);
    SizeIsWritten(root, image, tile, DeclaredFor(image, tile)[|DeclaredFor(image, tile)| - 1]);
  }

  // ----- what the store then holds -----

  ghost function KeysOf(writes: seq<Write>): set<Path> {
    set w | w in writes :: w.0
  }

  /** No key is written twice with different contents, so the order of the writes is immaterial. */
  ghost predicate Consistent(writes: seq<Write>) {
    forall v, w | v in writes && w in writes && v.0 == w.0 :: v == w
  }

  ghost predicate Holds(objects: map<Path, Blob>, writes: seq<Write>) {
    forall w | w in writes :: w.0 in objects && objects[w.0] == w.1
  }

  lemma {:induction false} StoredAll(objects: map<Path, Blob>, writes: seq<Write>)
    ensures StoreAll(objects, writes).Keys == objects.Keys + KeysOf(writes)
    ensures forall key | key in objects && key !in KeysOf(writes) :: StoreAll(objects, writes)[key] == objects[key]
  {
    if writes != [] {
      var front, last := writes[..|writes| - 1], writes[|writes| - 1];
      assert writes == front + [last];
      StoredAll(objects, front);
      assert KeysOf(writes) == KeysOf(front) + {last.0};
    }
  }

  lemma {:induction false} ConsistentHolds(objects: map<Path, Blob>, writes: seq<Write>)
    requires Consistent(writes)
    ensures Holds(StoreAll(objects, writes), writes)
  {
    if writes != [] {
      var front, last := writes[..|writes| - 1], writes[|writes| - 1];
      assert forall w | w in front :: w in writes;
      ConsistentHolds(objects, front);
      assert forall w | w in writes :: w in front || w == last;
    }
  }

  lemma SizeKeyInjective(root: Path, a: Size, b: Size)
    requires SizeKey(root, a) == SizeKey(root, b)
    ensures a == b
  {
    assert SizeKey(root, a)[|root| + 1] == SizeText(a.width, a.height);
    assert SizeKey(root, b)[|root| + 1] == SizeText(b.width, b.height);
    SizeTextInjective(a.width, a.height, b.width, b.height);
  }

  /** Tiles, the whole page, its announced sizes and info.json never overwrite one another. */
  lemma KeysApart(root: Path, p: TilePlan, size: Size)
    ensures TileKey(root, p) != ObjectKey(root, "full", "max") && TileKey(root, p) != SizeKey(root, size)
    ensures ObjectKey(root, "full", "max") != SizeKey(root, size)
    ensures |TileKey(root, p)| == |root| + 4 == |SizeKey(root, size)| == |ObjectKey(root, "full", "max")| &&
        |InfoKey(root)| == |root| + 1
  {
    RegionReadsBack(p.left, p.top, p.width, p.height);
    SizeReadsBack(size.width, size.height);
    assert TileKey(root, p)[|root|] == p.Region() &&
        SizeKey(root, size)[|root|] == "full" == ObjectKey(root, "full", "max")[|root|];
    assert SizeKey(root, size)[|root| + 1] == SizeText(size.width, size.height) &&
        ObjectKey(root, "full", "max")[|root| + 1] == "max";
  }

  lemma TileWritesConsistent(root: Path, image: Image, tile: Positive, plans: seq<TilePlan>)
    requires forall p | p in plans :: IsPlanned(p, image.width, image.height, tile)
    ensures Consistent(TileWrites(root, image, plans))
  {
    forall i, j | 0 <= i < |plans| && 0 <= j < |plans| && TileKey(root, plans[i]) == TileKey(root, plans[j])
      ensures TileBlob(image, plans[i]) == TileBlob(image, plans[j])
    {
      SameKeySameBlob(image, tile, root, plans[i], plans[j]);
    }
  }

  lemma SizeWritesConsistent(root: Path, image: Image, sizes: seq<Size>)
    ensures Consistent(SizeWrites(root, image, sizes))
  {
    forall i, j | 0 <= i < |sizes| && 0 <= j < |sizes| && SizeKey(root, sizes[i]) == SizeKey(root, sizes[j])
      ensures sizes[i] == sizes[j]
    {
      SizeKeyInjective(root, sizes[i], sizes[j]);
    }
  }

  lemma GroupsApart(root: Path, image: Image, plans: seq<TilePlan>, sizes: seq<Size>)
    ensures KeysOf(TileWrites(root, image, plans)) !! KeysOf(SizeWrites(root, image, sizes))
    ensures FullWrite(root, image).0 !in KeysOf(TileWrites(root, image, plans)) + KeysOf(SizeWrites(root, image, sizes))
    ensures InfoKey(root) != FullWrite(root, image).0
    ensures InfoKey(root) !in KeysOf(TileWrites(root, image, plans)) + KeysOf(SizeWrites(root, image, sizes))
  {
    forall p: TilePlan, size: Size
      ensures TileKey(root, p) != ObjectKey(root, "full", "max") && TileKey(root, p) != InfoKey(root)
      ensures TileKey(root, p) != SizeKey(root, size) && ObjectKey(root, "full", "max") != SizeKey(root, size)
      ensures SizeKey(root, size) != InfoKey(root)
    {
      KeysApart(root, p, size);
    }
    KeysApart(root, TilePlan(0, 0, 0, 0, 1), Size.Size(0, 0));
  }

  lemma PageWritesConsistent(root: Path, image: Image, tile: Positive)
    ensures Consistent(PageWrites(root, image, tile))
  {
    var plans, sizes := AllTiles(image.width, image.height, tile), DeclaredFor(image, tile);
    PyramidPlanned(image.width, image.height, tile);
    TileWritesConsistent(root, image, tile, plans);
    SizeWritesConsistent(root, image, sizes);
    GroupsApart(root, image, plans, sizes);
    var tiles, full, reduced, info :=
      TileWrites(root, image, plans), [FullWrite(root, image)], SizeWrites(root, image, sizes),
          [(InfoKey(root), InfoFor(image, tile))];
    ConsistentConcat(tiles, full);
    ConsistentConcat(tiles + full, reduced);
    ConsistentConcat(tiles + full + reduced, info);
  }

  lemma ConsistentConcat(a: seq<Write>, b: seq<Write>)
    requires Consistent(a) && Consistent(b) && KeysOf(a) !! KeysOf(b)
    ensures Consistent(a + b) && KeysOf(a + b) == KeysOf(a) + KeysOf(b)
  {
    forall v, w | v in a && w in b ensures v.0 != w.0 {
      assert v.0 in KeysOf(a) && w.0 in KeysOf(b);
    }
  }

  /**
   Whatever lay under the page's root before, tiling leaves exactly the planned tiles, the whole
   page, every announced size and info.json there, each with its own content, and changes nothing outside.
   */
  lemma TilingReplacesTree(before: map<Path, Blob>, root: Path, image: Image, tile: Positive)
    ensures var writes := PageWrites(root, image, tile);
            var after := StoreAll(Pruned(before, root), writes);
            && Holds(after, writes)
            && (forall key | IsUnder(key, root) :: key in after <==> key in KeysOf(writes))
            && (forall key | !IsUnder(key, root) ::
                 (key in after <==> key in before) && (key in after ==> after[key] == before[key]))
  {
    var writes := PageWrites(root, image, tile);
    PageWritesConsistent(root, image, tile);
    StoredAll(Pruned(before, root), writes);
    ConsistentHolds(Pruned(before, root), writes);
    PageWritesUnder(root, image, tile);
    assert forall key | key in KeysOf(writes) :: IsUnder(key, root);
  }

  ghost predicate AllUnder(writes: seq<Write>, root: Path) {
    forall w | w in writes :: IsUnder(w.0, root)
  }

  lemma PageWritesUnder(root: Path, image: Image, tile: Positive)
    ensures AllUnder(PageWrites(root, image, tile), root)
  {
    var tiles := TileWrites(root, image, AllTiles(image.width, image.height, tile));
    var sizes := SizeWrites(root, image, DeclaredFor(image, tile));
    assert AllUnder(tiles, root) && AllUnder(sizes, root);
    assert AllUnder([FullWrite(root, image)], root) && AllUnder([(InfoKey(root), InfoFor(image, tile))], root);
    assert AllUnder(tiles + [FullWrite(root, image)], root);
    assert AllUnder(tiles + [FullWrite(root, image)] + sizes, root);
  }

  // ----- what a client can ask for -----

  ghost predicate Resolves(objects: map<Path, Blob>, root: Path, region: string, size: string, blob: Blob) {
    var key := TileStorageKey(root, region, size);
    key.Ok? && key.value in objects && objects[key.value] == blob
  }

  /** Every announced tile and size, asked for as it is spelled, resolves to its own stored object. */
  lemma DeclaredResolves(objects: map<Path, Blob>, root: Path, image: Image, tile: Positive)
    requires Holds(objects, PageWrites(root, image, tile))
    ensures forall p | p in AllTiles(image.width, image.height, tile) ::
              Resolves(objects, root, p.Region(), p.Size(), TileBlob(image, p))
    ensures forall size | size in DeclaredFor(image, tile) ::
              Resolves(objects, root, "full", SizeText(size.width, size.height), SizeBlob(image, size))
    ensures Resolves(objects, root, "full", "max", Whole(image))
  {
    forall p | p in AllTiles(image.width, image.height, tile)
      ensures Resolves(objects, root, p.Region(), p.Size(), TileBlob(image, p))
    {
      TileResolves(objects, root, image, tile, p);
    }
    forall size | size in DeclaredFor(image, tile)
      ensures Resolves(objects, root, "full", SizeText(size.width, size.height), SizeBlob(image, size))
    {
      SizeResolves(objects, root, image, tile, size);
    }
    FullPageSpellings(0, 0);
    assert PageWrites(root, image, tile)[|AllTiles(image.width, image.height, tile)|] == FullWrite(root, image);
  }

  lemma TileResolves(objects: map<Path, Blob>, root: Path, image: Image, tile: Positive, p: TilePlan)
    requires Holds(objects, PageWrites(root, image, tile)) && p in AllTiles(image.width, image.height, tile)
    ensures Resolves(objects, root, p.Region(), p.Size(), TileBlob(image, p))
  {
    PyramidPlanned(image.width, image.height, tile);
    CanonicalSpellings(p.left, p.top, p.width, p.height, Announced(p.width, p.scale), Announced(p.height, p.scale));
    TileIsWritten(root, image, tile, p);
  }

  lemma TileIsWritten(root: Path, image: Image, tile: Positive, p: TilePlan)
    requires p in AllTiles(image.width, image.height, tile)
    ensures (TileKey(root, p), TileBlob(image, p)) in PageWrites(root, image, tile)
  {
    var plans := AllTiles(image.width, image.height, tile);
    var i :| 0 <= i < |plans| && plans[i] == p;
    assert PageWrites(root, image, tile)[i] == (TileKey(root, p), TileBlob(image, p));
  }

  lemma SizeIsWritten(root: Path, image: Image, tile: Positive, size: Size)
    requires size in DeclaredFor(image, tile)
    ensures (SizeKey(root, size), SizeBlob(image, size)) in PageWrites(root, image, tile)
  {
    var sizes := DeclaredFor(image, tile);
    var i :| 0 <= i < |sizes| && sizes[i] == size;
    assert SizeWrites(root, image, sizes)[i] == (SizeKey(root, size), SizeBlob(image, size));
    SizesAreAmong(TileWrites(root, image, AllTiles(image.width, image.height, tile)), [FullWrite(root, image)],
                  SizeWrites(root, image, sizes), [(InfoKey(root), InfoFor(image, tile))], i);
  }

  lemma SizesAreAmong(tiles: seq<Write>, full: seq<Write>, sizes: seq<Write>, info: seq<Write>, i: nat)
    requires i < |sizes|
    ensures sizes[i] in tiles + full + sizes + info
  {
    assert (tiles + full + sizes + info)[|tiles| + |full| + i] == sizes[i];
  }

  lemma SizeResolves(objects: map<Path, Blob>, root: Path, image: Image, tile: Positive, size: Size)
    requires Holds(objects, PageWrites(root, image, tile)) && size in DeclaredFor(image, tile)
    ensures Resolves(objects, root, "full", SizeText(size.width, size.height), SizeBlob(image, size))
  {
    FullPageSpellings(size.width, size.height);
    SizeIsWritten(root, image, tile, size);
  }

  /** A request for the region and size, spelled out, finds an object that shows that region of the image. */
  ghost predicate ShowsRegion(objects: map<Path, Blob>, root: Path, image: Image, p: TilePlan) {
    var region := RegionText(p.left, p.top, p.width, p.height);
    var size := SizeText(Announced(p.width, p.scale), Announced(p.height, p.scale));
    var key := TileStorageKey(root, region, size);
    && key == Ok(root + [region, size, "0", "default.webp"]) && key.value in objects
    && objects[key.value].Crop?
    && objects[key.value].image == image
    && objects[key.value].left == p.left && objects[key.value].top == p.top
    && objects[key.value].width == p.width && objects[key.value].height == p.height
    && objects[key.value].pixels.width == Max(1, p.width / p.scale)
    && objects[key.value].pixels.height == Max(1, p.height / p.scale)
  }

  /** A full-page request of this size finds the whole image, resampled to it unless the width is the image's own. */
  ghost predicate ShowsPage(objects: map<Path, Blob>, root: Path, image: Image, width: nat, height: nat) {
    var size := SizeText(width, height);
    var key := TileStorageKey(root, "full", size);
    && key == Ok(root + ["full", size, "0", "default.webp"]) && key.value in objects
    && if width == image.width then objects[key.value].Whole? && objects[key.value].image == image
       else && objects[key.value].Resized? && objects[key.value].image == image
            && objects[key.value].pixels.width == width && objects[key.value].pixels.height == height
  }

  /** The tree below a root is the page's pyramid. */
  ghost predicate ShowsImage(objects: map<Path, Blob>, root: Path, image: Image, tile: Positive) {
    var factors := Factors(image.width, image.height, tile);
    && (forall p | p in AllTiles(image.width, image.height, tile) :: ShowsRegion(objects, root, image, p))
    && (forall f | f in factors ::
         ShowsPage(objects, root, image, Announced(image.width, f), Announced(image.height, f)))
    && TileStorageKey(root, "full", "max") == Ok(root + ["full", "max", "0", "default.webp"])
    && root + ["full", "max", "0", "default.webp"] in objects
    && objects[root + ["full", "max", "0", "default.webp"]] == Whole(image)
    && root + ["info.json"] in objects
    && objects[root + ["info.json"]]
       == Info(image.width, image.height, tile, factors, Sizes(image.width, image.height, factors))
  }

  /**
   Whatever was there before, after the tiling every tile's key leads to the pixels of the region it
   spells, every announced size to the whole page at that size, and info.json announces both.
   */
  lemma TilingShowsImage(before: map<Path, Blob>, root: Path, image: Image, tile: Positive)
    ensures ShowsImage(StoreAll(Pruned(before, root), PageWrites(root, image, tile)), root, image, tile)
  {
    var after := StoreAll(Pruned(before, root), PageWrites(root, image, tile));
    TilingReplacesTree(before, root, image, tile);
    PyramidPlanned(image.width, image.height, tile);
    forall p | p in AllTiles(image.width, image.height, tile) ensures ShowsRegion(after, root, image, p) {
      TileShown(after, root, image, tile, p);
    }
    var factors := Factors(image.width, image.height, tile);
    forall f | f in factors
      ensures ShowsPage(after, root, image, Announced(image.width, f), Announced(image.height, f))
    {
      var i :| 0 <= i < |factors| && factors[i] == f;
      PageShown(after, root, image, tile, DeclaredFor(image, tile)[i]);
    }
    FullPageSpellings(0, 0);
    assert PageWrites(root, image, tile)[|AllTiles(image.width, image.height, tile)|] == FullWrite(root, image);
    InfoIsWritten(root, image, tile);
  }

  lemma TileShown(objects: map<Path, Blob>, root: Path, image: Image, tile: Positive, p: TilePlan)
    requires Holds(objects, PageWrites(root, image, tile))
    requires p in AllTiles(image.width, image.height, tile) && p.width > 0 && p.height > 0
    ensures ShowsRegion(objects, root, image, p)
  {
    TileResolves(objects, root, image, tile, p);
    CanonicalSpellings(p.left, p.top, p.width, p.height, Announced(p.width, p.scale), Announced(p.height, p.scale));
    RenderedPixels(image, p);
  }

  lemma PageShown(objects: map<Path, Blob>, root: Path, image: Image, tile: Positive, size: Size)
    requires Holds(objects, PageWrites(root, image, tile)) && size in DeclaredFor(image, tile)
    ensures ShowsPage(objects, root, image, size.width, size.height)
  {
    SizeResolves(objects, root, image, tile, size);
    FullPageSpellings(size.width, size.height);
  }

  lemma InfoIsWritten(root: Path, image: Image, tile: Positive)
    ensures (InfoKey(root), InfoFor(image, tile)) in PageWrites(root, image, tile)
  {
    var writes := PageWrites(root, image, tile);
    assert writes[|writes| - 1] == (InfoKey(root), InfoFor(image, tile));
  }

  /** A planned tile whose scale divides its width is also found under the `w,` spelling. */
  lemma WidthOnlyResolves(objects: map<Path, Blob>, root: Path, image: Image, tile: Positive, p: TilePlan)
    requires Holds(objects, PageWrites(root, image, tile))
    requires p in AllTiles(image.width, image.height, tile) && p.width % p.scale == 0
    ensures Resolves(objects, root, p.Region(), WidthOnly(Announced(p.width, p.scale)), TileBlob(image, p))
  {
    PyramidPlanned(image.width, image.height, tile);
    TileResolves(objects, root, image, tile, p);
    AgreeWhenScaleDivides(p.width, p.height, p.scale);
    CanonicalSpellings(p.left, p.top, p.width, p.height, Announced(p.width, p.scale), Announced(p.height, p.scale));
  }

  function PixelSize(blob: Blob): Size {
    match blob
    case Crop(_, _, _, _, _, pixels) => pixels
    case Whole(image) => Size(image.width, image.height)
    case Resized(_, pixels) => pixels
    case Info(width, height, _, _, _) => Size(width, height)
  }

  /**
   The announced sizes are the pixel sizes of the stored renderings exactly when the page is at
   least two pixels wide, or no taller than a tile: a one-pixel column is stored whole under each
   of its reduced sizes, because only widths are compared before resampling.
   */
  lemma AnnouncedSizesAreTrue(image: Image, tile: Positive)
    requires image.width > 0 && image.height > 0
    ensures (forall size | size in DeclaredFor(image, tile) :: PixelSize(SizeBlob(image, size)) == size)
       <==> image.width >= 2 || image.height <= tile
  {
    if image.width >= 2 || image.height <= tile {
      SizesTrue(image, tile);
    } else {
      ColumnStoredWhole(image, tile);
    }
  }

  lemma SizesTrue(image: Image, tile: Positive)
    requires image.width >= 2 || (image.width == 1 && 0 < image.height <= tile)
    ensures forall size | size in DeclaredFor(image, tile) && image.height > 0 ::
        PixelSize(SizeBlob(image, size)) == size
  {
    FactorsArePowers(image.width, image.height, tile);
    var factors := Factors(image.width, image.height, tile);
    var sizes := DeclaredFor(image, tile);
    RoundingIsUnique(image.width, 1, image.width);
    RoundingIsUnique(image.height, 1, image.height);
    forall i | 0 <= i < |factors| && image.height > 0 ensures PixelSize(SizeBlob(image, sizes[i])) == sizes[i] {
      assert factors[i] == Doubled(1, i);
      if i > 0 {
        DoublingGrows(1, 0, i);
        Reduces(image.width, factors[i]);
      }
    }
  }

  lemma ColumnStoredWhole(image: Image, tile: Positive)
    requires image.width == 1 && image.height > tile
    ensures exists size | size in DeclaredFor(image, tile) :: PixelSize(SizeBlob(image, size)) != size
  {
    var factors := Factors(image.width, image.height, tile);
    var sizes := DeclaredFor(image, tile);
    assert factors[1] == FactorsFrom(image.height, 2 * tile, 2)[0] == 2;
    Reduces(image.width, 2);
    Reduces(image.height, 2);
    assert sizes[1] in sizes;
  }

  lemma Reduces(n: nat, factor: nat)
    requires factor >= 2
    ensures n >= 2 ==> Announced(n, factor) < n
    ensures n == 1 ==> Announced(n, factor) == 1
  {
    var r := RoundDiv(n, factor);
    assert IsRounding(n, factor, r);
    MulStep(n, r, factor);
    MulStep(2, factor, n);
    MulStep(2, r, factor);
    assert n * factor == factor * n;
  }
}
