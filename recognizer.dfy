/** Recognition of the cards in a hand screenshot (CardRecognizer.java): the template search
    of recognizeImage and the slot loop of execute. */
module Recognizer {
  import opened Wrappers
  import opened Raster
  import opened DHash
  import opened Cropper

  datatype Point = Point(x: int, y: int)
  datatype Dimension = Dimension(width: int, height: int)

  /** The geometry of a hand screenshot: where the value and suit glyph of the first card
      lie, their sizes, and the horizontal step from one card to the next. */
  const ExpectedImageSize: Dimension := Dimension(636, 1166)
  const ValueOffset: Point := Point(147, 590)
  const SuitOffset: Point := Point(147, 617)
  const ValueSize: Dimension := Dimension(30, 27)
  const SuitSize: Dimension := Dimension(25, 20)
  const CardDistance: int := 72
  /** The number of card slots the scan looks at. */
  const SlotCount: int := 5

  /** templates: each label with the hashes of its pattern images, in iteration order. */
  type Library = seq<(string, seq<string>)>

  // ---------------------------------------------------------------- template search

  /** Some template hash of the entry is similar to hash. */
  predicate EntryMatches(p: DHashProcessor, entry: (string, seq<string>), hash: string)
    requires Valid(p)
  {
    exists j :: 0 <= j < |entry.1| && AreSimilar(p, entry.1[j], hash)
  }

  /** The label of the first entry holding a template similar to hash, if any. */
  function FirstMatch(p: DHashProcessor, lib: Library, hash: string): (r: Option<string>)
    requires Valid(p)
    ensures r.Some? ==> exists i :: 0 <= i < |lib| && lib[i].0 == r.value && EntryMatches(p, lib[i], hash)
  {
    if |lib| == 0 then None
    else if EntryMatches(p, lib[0], hash) then Some(lib[0].0)
    else
      var r := FirstMatch(p, lib[1..], hash);
      if r.Some? then
        var i :| 0 <= i < |lib[1..]| && lib[1..][i].0 == r.value && EntryMatches(p, lib[1..][i], hash);
        assert lib[i + 1] == lib[1..][i];
        r
      else r
  }

  /** No label is found iff no entry holds a similar template. */
  lemma {:induction false} FirstMatchNone(p: DHashProcessor, lib: Library, hash: string)
    requires Valid(p)
    ensures FirstMatch(p, lib, hash).None? <==> forall i :: 0 <= i < |lib| ==> !EntryMatches(p, lib[i], hash)
  {
    if |lib| > 0 {
      FirstMatchNone(p, lib[1..], hash);
      if !EntryMatches(p, lib[0], hash) {
        forall i | 1 <= i < |lib|
          ensures EntryMatches(p, lib[i], hash) == EntryMatches(p, lib[1..][i - 1], hash)
        {
          assert lib[1..][i - 1] == lib[i];
        }
      }
    }
  }

  /** The label found is that of the first entry holding a similar template: the search is
      first-match in iteration order. */
  lemma {:induction false} FirstMatchAt(p: DHashProcessor, lib: Library, hash: string, i: int)
    requires Valid(p) && 0 <= i < |lib| && EntryMatches(p, lib[i], hash)
    requires forall k :: 0 <= k < i ==> !EntryMatches(p, lib[k], hash)
    ensures FirstMatch(p, lib, hash) == Some(lib[i].0)
  {
    if i > 0 {
      assert lib[1..][i - 1] == lib[i];
      forall k | 0 <= k < i - 1 ensures !EntryMatches(p, lib[1..][k], hash) {
        assert lib[1..][k] == lib[k + 1];
      }
      FirstMatchAt(p, lib[1..], hash, i - 1);
    }
  }

  /** The matching loop of recognizeImage: entries in order, and within an entry its
      templates in order, until a template is similar to hash. */
  method MatchTemplates(p: DHashProcessor, lib: Library, hash: string) returns (found: Option<string>)
    requires Valid(p)
    ensures found == FirstMatch(p, lib, hash)
  {
    var i := 0;
    assert lib[i..] == lib;
    while i < |lib|
      invariant 0 <= i <= |lib|
      invariant FirstMatch(p, lib, hash) == FirstMatch(p, lib[i..], hash)
    {
      var templates := lib[i].1;
      var j := 0;
      while j < |templates|
        invariant 0 <= j <= |templates|
        invariant forall k :: 0 <= k < j ==> !AreSimilar(p, templates[k], hash)
      {
        if AreSimilar(p, templates[j], hash) {
          assert lib[i..][0] == lib[i];
          return Some(lib[i].0);
        }
        j := j + 1;
      }
      assert lib[i..][0] == lib[i] && lib[i..][1..] == lib[i + 1..];
      i := i + 1;
    }
    return None;
  }

  // ---------------------------------------------------------------- recognizing one glyph

  /** What recognizeImage reports: a label, or none after the cropped glyph (the region
      given) has been handed to the sink for unrecognized images. */
  datatype Recognition = Recognized(name: string) | Unrecognized(glyph: Rect)

  /** A crop of the region `area`, moved from the region's coordinates to the image's. */
  function ToImage(area: Rect, crop: Result<Rect, CropError>): Result<Rect, CropError> {
    match crop
    case Failure(e) => Failure(e)
    case Success(box) => Success(Rect(area.x + box.x, area.y + box.y, box.width, box.height))
  }

  /** The glyph cropImage cuts out of the region `area` of an image with pixels g, in image
      coordinates, or why it fails. The glyph is a non-empty part of the region. */
  function Glyph(g: Grid, height: nat, area: Rect): (r: Result<Rect, CropError>)
    requires IsGrid(g, height) && InImage(area, |g|, height)
    ensures r.Success? ==>
      area.x <= r.value.x && r.value.x + r.value.width <= area.x + area.width &&
      area.y <= r.value.y && r.value.y + r.value.height <= area.y + area.height &&
      0 < r.value.width && 0 < r.value.height
  {
    var pixels := SubGrid(g, height, area);
    var crop := Crop(pixels, area.height);
    if crop.Failure? then ToImage(area, crop)
    else
      CropIsTight(pixels, area.height, crop.value);
      ToImage(area, crop)
  }

  /** calculateHash of a glyph: the fingerprint of its pixels as `resize` resamples them to
      hashSize x hashSize. */
  function GlyphHash(p: DHashProcessor, g: Grid, height: nat, glyph: Rect, resize: Resampler): string
    requires Valid(p) && IsGrid(g, height) && InImage(glyph, |g|, height)
  {
    Fingerprint(PictureGrid(Picture(p.hashSize, p.hashSize, resize(SubGrid(g, height, glyph)))), p.hashSize)
  }

  /** recognizeImage on the region `area` of an image with pixels g: crop it to its glyph
      (failing as cropImage does), hash the glyph and search the library. */
  function Recognize(p: DHashProcessor, lib: Library, g: Grid, height: nat, area: Rect, resize: Resampler)
    : Result<Recognition, CropError>
    requires Valid(p) && IsGrid(g, height) && InImage(area, |g|, height)
  {
    match Glyph(g, height, area)
    case Failure(e) => Failure(e)
    case Success(glyph) =>
      match FirstMatch(p, lib, GlyphHash(p, g, height, glyph, resize))
      case Some(name) => Success(Recognized(name))
      case None => Success(Unrecognized(glyph))
  }

  /** The region has no content, in image coordinates. */
  predicate AllCard(g: Grid, height: nat, area: Rect)
    requires IsGrid(g, height) && InImage(area, |g|, height)
  {
    forall x, y :: area.x <= x < area.x + area.width && area.y <= y < area.y + area.height ==> IsCard(g[x][y])
  }

  /** Cropping fails with EmptyContent exactly when the region has no content. */
  lemma GlyphEmptyIff(g: Grid, height: nat, area: Rect)
    requires IsGrid(g, height) && InImage(area, |g|, height)
    ensures Glyph(g, height, area) == Failure(EmptyContent) <==> AllCard(g, height, area)
  {
    var pixels := SubGrid(g, height, area);
    CropEmptyIff(pixels, area.height);
    if AllCard(g, height, area) {
      forall x, y | 0 <= x < area.width && 0 <= y < area.height ensures !IsContent(pixels, x, y) {
        assert IsCard(g[area.x + x][area.y + y]);
      }
    } else {
      var x, y :| area.x <= x < area.x + area.width && area.y <= y < area.y + area.height && !IsCard(g[x][y]);
      assert IsContent(pixels, x - area.x, y - area.y);
    }
  }

  /** With content in two rows of the region, cropping never fails. */
  lemma GlyphOfTwoRows(g: Grid, height: nat, area: Rect, y1: int, y2: int)
    requires IsGrid(g, height) && InImage(area, |g|, height) && 0 <= y1 < y2 < area.height
    requires !RowBlank(SubGrid(g, height, area), area.height, y1)
    requires !RowBlank(SubGrid(g, height, area), area.height, y2)
    ensures Glyph(g, height, area).Success?
  {
    CropTwoRows(SubGrid(g, height, area), area.height, y1, y2);
  }

  /** A glyph reported unrecognized is a non-empty part of the region whose hash is similar
      to no template of the library. */
  lemma UnrecognizedGlyph(p: DHashProcessor, lib: Library, g: Grid, height: nat, area: Rect,
                          resize: Resampler, glyph: Rect)
    requires Valid(p) && IsGrid(g, height) && InImage(area, |g|, height)
    requires Recognize(p, lib, g, height, area, resize) == Success(Unrecognized(glyph))
    ensures area.x <= glyph.x && glyph.x + glyph.width <= area.x + area.width
    ensures area.y <= glyph.y && glyph.y + glyph.height <= area.y + area.height
    ensures 0 < glyph.width && 0 < glyph.height
    ensures forall i :: 0 <= i < |lib| ==> !EntryMatches(p, lib[i], GlyphHash(p, g, height, glyph, resize))
  {
    FirstMatchNone(p, lib, GlyphHash(p, g, height, glyph, resize));
  }

  /** Cropping the region of an array crops the same part of its cells. */
  lemma GlyphOfRegion(img: array2<int>, area: Rect)
    requires InImage(area, img.Length0, img.Length1)
    ensures Glyph(Cells(img), img.Length1, area) == ToImage(area, Crop(RegionGrid(img, area), area.height))
  {
    RegionIsSubGrid(img, area);
  }

  /** Hashing a glyph read from an array hashes the same part of its cells. */
  lemma HashOfRegion(p: DHashProcessor, img: array2<int>, glyph: Rect, resize: Resampler)
    requires Valid(p) && InImage(glyph, img.Length0, img.Length1)
    ensures Fingerprint(PictureGrid(Picture(p.hashSize, p.hashSize, resize(RegionGrid(img, glyph)))), p.hashSize)
      == GlyphHash(p, Cells(img), img.Length1, glyph, resize)
  {
    RegionIsSubGrid(img, glyph);
  }

  /** cropImage on the region `area` of img, the glyph given in image coordinates. */
  method CropGlyph(img: array2<int>, ghost pixels: Grid, area: Rect) returns (r: Result<Rect, CropError>)
    requires InImage(area, img.Length0, img.Length1) && area.width < IntMax && area.height < IntMax
    requires pixels == Cells(img)
    ensures r == Glyph(pixels, img.Length1, area)
  {
    var crop := CropImage(img, area);
    GlyphOfRegion(img, area);
    r := ToImage(area, crop);
  }

  /** calculateHash on the glyph's pixels, resampled by `resize`. */
  method HashGlyph(p: DHashProcessor, img: array2<int>, ghost pixels: Grid, glyph: Rect, resize: Resampler)
    returns (hash: string)
    requires Valid(p) && InImage(glyph, img.Length0, img.Length1) && pixels == Cells(img)
    ensures hash == GlyphHash(p, pixels, img.Length1, glyph, resize)
  {
    HashOfRegion(p, img, glyph, resize);
    hash := CalculateHash(p, Picture(p.hashSize, p.hashSize, resize(RegionGrid(img, glyph))));
  }

  /** The region of `size` at `start` moved right by xOffset, which recognizeImage cuts out. */
  function Region(start: Point, xOffset: int, size: Dimension): Rect {
    Rect(start.x + xOffset, start.y, size.width, size.height)
  }

  /** recognizeImage: the region of `size` at `start` moved right by xOffset. */
  method RecognizeImage(p: DHashProcessor, lib: Library, img: array2<int>, ghost pixels: Grid, start: Point,
                        xOffset: int, size: Dimension, resize: Resampler)
    returns (r: Result<Recognition, CropError>)
    requires Valid(p) && size.width < IntMax && size.height < IntMax && pixels == Cells(img)
    requires InImage(Region(start, xOffset, size), img.Length0, img.Length1)
    ensures r == Recognize(p, lib, pixels, img.Length1, Region(start, xOffset, size), resize)
  {
    var area := Region(start, xOffset, size);
    var glyph := CropGlyph(img, pixels, area);
    if glyph.Failure? {
      return Failure(glyph.error);
    }
    var hash := HashGlyph(p, img, pixels, glyph.value, resize);
    var found := MatchTemplates(p, lib, hash);
    if found.Some? {
      r := Success(Recognized(found.value));
    } else {
      r := Success(Unrecognized(glyph.value));
    }
  }

  // ---------------------------------------------------------------- the slot loop

  /** The value and suit recognitions of one card slot. */
  datatype Slot = Slot(value: Recognition, suit: Recognition)

  /** A hand screenshot as readImage accepts it: 636 pixels wide and 1166 high. */
  predicate IsHand(img: array2<int>) {
    img.Length0 == ExpectedImageSize.width && img.Length1 == ExpectedImageSize.height
  }

  /** The pixels of a hand screenshot. */
  predicate IsHandGrid(hand: Grid) {
    |hand| == ExpectedImageSize.width && IsGrid(hand, ExpectedImageSize.height)
  }

  /** The pixel whose colour tells whether slot i holds a card. */
  function Anchor(i: int): Point {
    Point(ValueOffset.x + CardDistance * i, ValueOffset.y)
  }

  /** The regions of the value and of the suit glyph of slot i. */
  function ValueArea(i: int): Rect {
    Region(ValueOffset, CardDistance * i, ValueSize)
  }

  function SuitArea(i: int): Rect {
    Region(SuitOffset, CardDistance * i, SuitSize)
  }

  /** Every slot's anchor and glyph regions lie inside a hand screenshot. */
  lemma SlotInHand(i: int)
    requires 0 <= i < SlotCount
    ensures 0 <= Anchor(i).x < ExpectedImageSize.width && 0 <= Anchor(i).y < ExpectedImageSize.height
    ensures InImage(ValueArea(i), ExpectedImageSize.width, ExpectedImageSize.height)
    ensures InImage(SuitArea(i), ExpectedImageSize.width, ExpectedImageSize.height)
  {
  }

  /** isCard: the pixel at column x and row y of the image is card-coloured. */
  method IsCardAt(img: array2<int>, ghost pixels: Grid, x: int, y: int) returns (b: bool)
    requires pixels == Cells(img) && 0 <= x < img.Length0 && 0 <= y < img.Length1
    ensures b == IsCard(pixels[x][y])
  {
    b := IsCard(img[x, y]);
  }

  /** Slot i holds a card: its anchor pixel, at column 147 + 72i of row 590, is white or
      grey paper, whatever its alpha byte. */
  predicate HoldsCard(hand: Grid, i: int)
    requires IsHandGrid(hand) && 0 <= i < SlotCount
    ensures HoldsCard(hand, i) <==>
      hand[147 + 72 * i][590] % 0x100_0000 == 0xFF_FFFF || hand[147 + 72 * i][590] % 0x100_0000 == 0x78_7878
  {
    SlotInHand(i);
    IsCard(hand[Anchor(i).x][Anchor(i).y])
  }

  /** The two recognitions of slot i: its value, then its suit. A failed crop of either ends
      the slot. */
  function SlotResult(p: DHashProcessor, lib: Library, hand: Grid, resize: Resampler, i: int)
    : Result<Slot, CropError>
    requires Valid(p) && IsHandGrid(hand) && 0 <= i < SlotCount
  {
    SlotInHand(i);
    match Recognize(p, lib, hand, ExpectedImageSize.height, ValueArea(i), resize)
    case Failure(e) => Failure(e)
    case Success(value) =>
      match Recognize(p, lib, hand, ExpectedImageSize.height, SuitArea(i), resize)
      case Failure(e) => Failure(e)
      case Success(suit) => Success(Slot(value, suit))
  }

  /** A slot fails exactly when its value or its suit region fails to crop, and the value is
      cropped first: when both fail, the slot fails with the value's error. */
  lemma SlotFailsIff(p: DHashProcessor, lib: Library, hand: Grid, resize: Resampler, i: int)
    requires Valid(p) && IsHandGrid(hand) && 0 <= i < SlotCount
    ensures SlotResult(p, lib, hand, resize, i).Failure? <==>
      Glyph(hand, ExpectedImageSize.height, ValueArea(i)).Failure? ||
      Glyph(hand, ExpectedImageSize.height, SuitArea(i)).Failure?
    ensures Glyph(hand, ExpectedImageSize.height, ValueArea(i)).Failure? ==>
      SlotResult(p, lib, hand, resize, i) == Failure(Glyph(hand, ExpectedImageSize.height, ValueArea(i)).error)
    ensures (Glyph(hand, ExpectedImageSize.height, ValueArea(i)).Success? &&
             Glyph(hand, ExpectedImageSize.height, SuitArea(i)).Failure?) ==>
      SlotResult(p, lib, hand, resize, i) == Failure(Glyph(hand, ExpectedImageSize.height, SuitArea(i)).error)
  {
    SlotInHand(i);
  }

  /** A slot whose value fails to crop fails with the value's error. */
  lemma SlotOfValueFailure(p: DHashProcessor, lib: Library, hand: Grid, resize: Resampler, i: int, e: CropError)
    requires Valid(p) && IsHandGrid(hand) && 0 <= i < SlotCount
    requires InImage(ValueArea(i), |hand|, ExpectedImageSize.height)
    requires Recognize(p, lib, hand, ExpectedImageSize.height, ValueArea(i), resize) == Failure(e)
    ensures SlotResult(p, lib, hand, resize, i) == Failure(e)
  {
  }

  /** A slot whose value is recognized gives the suit's failure, or both recognitions. */
  lemma SlotOfRecognitions(p: DHashProcessor, lib: Library, hand: Grid, resize: Resampler, i: int,
                           value: Recognition, suit: Result<Recognition, CropError>)
    requires Valid(p) && IsHandGrid(hand) && 0 <= i < SlotCount
    requires InImage(ValueArea(i), |hand|, ExpectedImageSize.height)
    requires InImage(SuitArea(i), |hand|, ExpectedImageSize.height)
    requires Recognize(p, lib, hand, ExpectedImageSize.height, ValueArea(i), resize) == Success(value)
    requires Recognize(p, lib, hand, ExpectedImageSize.height, SuitArea(i), resize) == suit
    ensures suit.Failure? ==> SlotResult(p, lib, hand, resize, i) == Failure(suit.error)
    ensures suit.Success? ==> SlotResult(p, lib, hand, resize, i) == Success(Slot(value, suit.value))
  {
  }

  /** The scan from slot 0, given the slots scanned before some slot and the scan from it. */
  function Prepend(prefix: seq<Slot>, r: Result<seq<Slot>, CropError>): Result<seq<Slot>, CropError> {
    match r
    case Success(rest) => Success(prefix + rest)
    case Failure(e) => Failure(e)
  }

  /** The slot loop from slot i on, for slots of which cards[k] tells whether slot k holds a
      card and results[k] what recognizing slot k gives: stop after the last slot or at the
      first slot holding no card; a failed slot ends the whole scan. */
  function ScanSlots(cards: seq<bool>, results: seq<Result<Slot, CropError>>, i: int)
    : (r: Result<seq<Slot>, CropError>)
    requires |cards| == |results| && 0 <= i <= |cards|
    ensures r.Success? ==> i + |r.value| <= |cards|
    decreases |cards| - i
  {
    if i == |cards| || !cards[i] then Success([])
    else
      match results[i]
      case Failure(e) => Failure(e)
      case Success(slot) => Prepend([slot], ScanSlots(cards, results, i + 1))
  }

  /** Scanning on from a slot holding a card that is recognized moves that slot into the prefix. */
  lemma ScanSlotsStep(cards: seq<bool>, results: seq<Result<Slot, CropError>>, i: int, prefix: seq<Slot>, slot: Slot)
    requires |cards| == |results| && 0 <= i < |cards|
    requires cards[i] && results[i] == Success(slot)
    ensures Prepend(prefix, ScanSlots(cards, results, i)) == Prepend(prefix + [slot], ScanSlots(cards, results, i + 1))
  {
    var rest := ScanSlots(cards, results, i + 1);
    if rest.Success? {
      assert prefix + ([slot] + rest.value) == (prefix + [slot]) + rest.value;
    }
  }

  /** The slots scanned are slots i, i + 1, ... in order: each holds a card and is the result
      of recognizing that slot; the scan ends at the last slot or at the first slot holding
      no card. */
  lemma {:induction false} ScanSlotsSuccess(cards: seq<bool>, results: seq<Result<Slot, CropError>>, i: int,
                                            slots: seq<Slot>)
    requires |cards| == |results| && 0 <= i <= |cards|
    requires ScanSlots(cards, results, i) == Success(slots)
    ensures i + |slots| <= |cards|
    ensures forall k :: i <= k < i + |slots| ==> cards[k] && results[k] == Success(slots[k - i])
    ensures i + |slots| < |cards| ==> !cards[i + |slots|]
    decreases |cards| - i
  {
    if i < |cards| && cards[i] {
      var rest := ScanSlots(cards, results, i + 1).value;
      ScanSlotsSuccess(cards, results, i + 1, rest);
      assert slots == [results[i].value] + rest;
    }
  }

  /** A failed scan failed on some slot k holding a card, after every slot before it held a
      card and was recognized: the failure cuts the scan short. */
  lemma {:induction false} ScanSlotsFailure(cards: seq<bool>, results: seq<Result<Slot, CropError>>, i: int,
                                            e: CropError)
    requires |cards| == |results| && 0 <= i <= |cards|
    requires ScanSlots(cards, results, i) == Failure(e)
    ensures exists k :: (i <= k < |cards| && cards[k] && results[k] == Failure(e) &&
      forall j :: i <= j < k ==> cards[j] && results[j].Success?)
    decreases |cards| - i
  {
    if results[i].Success? {
      ScanSlotsFailure(cards, results, i + 1, e);
      var k :| i + 1 <= k < |cards| && cards[k] && results[k] == Failure(e) &&
        forall j :: i + 1 <= j < k ==> cards[j] && results[j].Success?;
      assert forall j :: i <= j < k ==> cards[j] && results[j].Success?;
    }
  }

  /** For each slot of the hand, whether it holds a card. */
  function Cards(hand: Grid): seq<bool>
    requires IsHandGrid(hand)
  {
    seq(SlotCount, k requires 0 <= k < SlotCount => HoldsCard(hand, k))
  }

  /** For each slot of the hand, what recognizing it gives. */
  function SlotResults(p: DHashProcessor, lib: Library, hand: Grid, resize: Resampler)
    : seq<Result<Slot, CropError>>
    requires Valid(p) && IsHandGrid(hand)
  {
    seq(SlotCount, k requires 0 <= k < SlotCount => SlotResult(p, lib, hand, resize, k))
  }

  /** The slots execute finds in a hand screenshot. */
  function ScanHandSlots(p: DHashProcessor, lib: Library, hand: Grid, resize: Resampler)
    : Result<seq<Slot>, CropError>
    requires Valid(p) && IsHandGrid(hand)
  {
    ScanSlots(Cards(hand), SlotResults(p, lib, hand, resize), 0)
  }

  /** Tables of what each slot holds and gives, with the scan over them being the scan of
      the hand. The recognitions are tied to the table entry by entry, as the slot loop
      reaches them. */
  lemma SlotTables(p: DHashProcessor, lib: Library, hand: Grid, resize: Resampler)
    returns (cards: seq<bool>, results: seq<Result<Slot, CropError>>)
    requires Valid(p) && IsHandGrid(hand)
    ensures |cards| == SlotCount && |results| == SlotCount
    ensures forall k {:trigger HoldsCard(hand, k)} :: 0 <= k < SlotCount ==> cards[k] == HoldsCard(hand, k)
    ensures forall k {:trigger SlotResult(p, lib, hand, resize, k)} :: 0 <= k < SlotCount ==>
      results[k] == SlotResult(p, lib, hand, resize, k)
    ensures ScanSlots(cards, results, 0) == ScanHandSlots(p, lib, hand, resize)
  {
    cards, results := Cards(hand), SlotResults(p, lib, hand, resize);
  }

  /** The number of empty results among the slots' recognitions. */
  function Misses(slots: seq<Slot>): (n: nat)
    ensures n <= 2 * |slots|
  {
    if |slots| == 0 then 0 else Misses(slots[..|slots| - 1]) + SlotMisses(slots[|slots| - 1])
  }

  /** The number of empty results among one slot's two recognitions. */
  function SlotMisses(slot: Slot): (n: nat)
    ensures n <= 2
  {
    (if slot.value.Unrecognized? then 1 else 0) + (if slot.suit.Unrecognized? then 1 else 0)
  }

  /** The body of the slot loop of execute: recognize the value of slot i, then its suit,
      counting each empty result in `count`. */
  method RecognizeSlot(p: DHashProcessor, lib: Library, img: array2<int>, ghost hand: Grid, resize: Resampler,
                       i: int, unrecognized: int)
    returns (r: Result<Slot, CropError>, count: int)
    requires Valid(p) && IsHand(img) && hand == Cells(img) && 0 <= i < SlotCount
    ensures r == SlotResult(p, lib, hand, resize, i)
    ensures r.Success? ==> count == unrecognized + SlotMisses(r.value)
  {
    SlotInHand(i);
    count := unrecognized;
    var value := RecognizeImage(p, lib, img, hand, ValueOffset, CardDistance * i, ValueSize, resize);
    assert value == Recognize(p, lib, hand, ExpectedImageSize.height, ValueArea(i), resize);
    if value.Failure? {
      SlotOfValueFailure(p, lib, hand, resize, i, value.error);
      return Failure(value.error), count;
    }
    if value.value.Unrecognized? {
      count := count + 1;
    }
    var suit := RecognizeImage(p, lib, img, hand, SuitOffset, CardDistance * i, SuitSize, resize);
    assert suit == Recognize(p, lib, hand, ExpectedImageSize.height, SuitArea(i), resize);
    SlotOfRecognitions(p, lib, hand, resize, i, value.value, suit);
    if suit.Failure? {
      return Failure(suit.error), count;
    }
    if suit.value.Unrecognized? {
      count := count + 1;
    }
    r := Success(Slot(value.value, suit.value));
  }

  /** The slot loop of execute on one hand screenshot with pixels `hand`, over tables of what
      each slot holds and gives, with the unrecognized counter coming in as `unrecognized`:
      the slots it recognizes and the counter after them. */
  method SlotLoop(p: DHashProcessor, lib: Library, img: array2<int>, ghost hand: Grid, ghost cards: seq<bool>,
                  ghost results: seq<Result<Slot, CropError>>, resize: Resampler, unrecognized: int)
    returns (res: Result<seq<Slot>, CropError>, count: int)
    requires Valid(p) && IsHand(img) && hand == Cells(img)
    requires |cards| == SlotCount && |results| == SlotCount
    requires forall k {:trigger HoldsCard(hand, k)} :: 0 <= k < SlotCount ==> cards[k] == HoldsCard(hand, k)
    requires forall k {:trigger SlotResult(p, lib, hand, resize, k)} :: 0 <= k < SlotCount ==>
      results[k] == SlotResult(p, lib, hand, resize, k)
    ensures res == ScanSlots(cards, results, 0)
    ensures res.Success? ==> count == unrecognized + Misses(res.value)
  {
    ghost var whole := ScanSlots(cards, results, 0);
    if whole.Success? {
      assert [] + whole.value == whole.value;
    }
    var slots: seq<Slot> := [];
    count := unrecognized;
    var i := 0;
    while i < SlotCount
      invariant 0 <= i <= SlotCount && |slots| == i
      invariant whole == Prepend(slots, ScanSlots(cards, results, i))
      invariant count == unrecognized + Misses(slots)
      invariant hand == Cells(img)
    {
      SlotInHand(i);
      var holds := IsCardAt(img, hand, Anchor(i).x, Anchor(i).y);
      assert cards[i] == HoldsCard(hand, i) == holds;
      if !holds {
        assert slots + [] == slots;
        break;
      }
      var slot, counted := RecognizeSlot(p, lib, img, hand, resize, i, count);
      assert results[i] == slot;
      if slot.Failure? {
        return Failure(slot.error), counted;
      }
      ScanSlotsStep(cards, results, i, slots, slot.value);
      assert (slots + [slot.value])[..|slots|] == slots;
      slots := slots + [slot.value];
      count := counted;
      i := i + 1;
    }
    if i == SlotCount {
      assert slots + [] == slots;
    }
    res := Success(slots);
  }

  /** The slot loop of execute on one hand screenshot, with the unrecognized counter coming
      in as `unrecognized`: the slots it recognizes and the counter after them. */
  method ScanHand(p: DHashProcessor, lib: Library, img: array2<int>, resize: Resampler, unrecognized: int)
    returns (res: Result<seq<Slot>, CropError>, count: int)
    requires Valid(p) && IsHand(img)
    ensures res == ScanHandSlots(p, lib, Cells(img), resize)
    ensures res.Success? ==> count == unrecognized + Misses(res.value)
  {
    ghost var hand := Cells(img);
    ghost var cards, results := SlotTables(p, lib, hand, resize);
    res, count := SlotLoop(p, lib, img, hand, cards, results, resize, unrecognized);
  }
}
