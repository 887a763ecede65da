/**
 * The palette ("block map") of src/block_map.rs: every decodable tile of the block
 * directory keyed by its average colour, kept in a vector in directory order, and
 * the nearest-colour search over that vector.
 */
module BlockMap {
  import opened ImageBuf

  /** Tiles are meant to be BLOCK_SIZE x BLOCK_SIZE pixels. */
  const BLOCK_SIZE: nat := 16

  /** The averaging divisor, BLOCK_SIZE * BLOCK_SIZE, whatever the tile's real size. */
  const DIVISOR: nat := 256

  /** `u32::max_value()`, the matcher's starting distance. */
  const U32_MAX: nat := 0xFFFF_FFFF

  /** One item of the directory listing, after `image::open(..).to_rgb8()`. */
  datatype DirEntry =
    | Unreadable            // the iterator yielded an `Err` for this entry
    | Undecodable           // `image::open` failed
    | Decoded(img: ImgBuffer)

  /** A palette entry: the average-colour key and the tile. */
  datatype Entry = Entry(key: Rgb, picture: ImgBuffer)

  // ---------------------------------------------------------------------------
  // Averaging

  /** Sum of channel k over a sequence of pixels. */
  function ChannelSum(ps: seq<Rgb>, k: nat): nat
    requires k < 3
  {
    if ps == [] then 0 else ChannelSum(ps[..|ps| - 1], k) + ps[|ps| - 1][k]
  }

  /** The `as u8` cast: keeps the low eight bits. */
  function AsU8(n: nat): Byte
  {
    n % 256
  }

  /** The key of a tile: each channel sum divided by 256, truncated, cast to `u8`. */
  function KeyOf(img: ImgBuffer): Rgb
  {
    [AsU8(ChannelSum(img.pixels, 0) / DIVISOR),
     AsU8(ChannelSum(img.pixels, 1) / DIVISOR),
     AsU8(ChannelSum(img.pixels, 2) / DIVISOR)]
  }

  /** The nested loops of get_blocks_map: accumulate every channel of every pixel
      into `colors`, then divide by 256 and cast. */
  method TileKey(img: ImgBuffer) returns (key: Rgb)
    ensures key == KeyOf(img)
  {
    var colors := new nat[3](_ => 0);
    for j := 0 to |img.pixels|
      invariant forall c :: 0 <= c < 3 ==> colors[c] == ChannelSum(img.pixels[..j], c)
    {
      var p := img.pixels[j];
      assert img.pixels[..j + 1][..j] == img.pixels[..j];
      for k := 0 to 3
        invariant forall c :: 0 <= c < k ==> colors[c] == ChannelSum(img.pixels[..j + 1], c)
        invariant forall c :: k <= c < 3 ==> colors[c] == ChannelSum(img.pixels[..j], c)
      {
        colors[k] := colors[k] + p[k];
      }
    }
    assert img.pixels[..|img.pixels|] == img.pixels;
    key := [AsU8(colors[0] / DIVISOR), AsU8(colors[1] / DIVISOR), AsU8(colors[2] / DIVISOR)];
  }

  lemma {:induction false} ChannelSumBound(ps: seq<Rgb>, k: nat)
    requires k < 3
    ensures ChannelSum(ps, k) <= 255 * |ps|
  {
    if ps != [] {
      ChannelSumBound(ps[..|ps| - 1], k);
    }
  }

  lemma {:induction false} ChannelSumUniform(ps: seq<Rgb>, k: nat, c: Rgb)
    requires k < 3
    requires forall i :: 0 <= i < |ps| ==> ps[i] == c
    ensures ChannelSum(ps, k) == |ps| * c[k]
  {
    if ps != [] {
      ChannelSumUniform(ps[..|ps| - 1], k, c);
    }
  }

  /** For a tile of at most 256 pixels (a 16 x 16 tile in particular) every channel sum
      is at most 255 * 256, so the cast to `u8` keeps the floor average unchanged. */
  lemma KeyIsFloorAverage(img: ImgBuffer)
    requires img.width * img.height <= 256
    ensures forall k :: 0 <= k < 3 ==> KeyOf(img)[k] == ChannelSum(img.pixels, k) / 256
  {
    assert |img.pixels| <= 256;
    forall k | 0 <= k < 3
      ensures KeyOf(img)[k] == ChannelSum(img.pixels, k) / 256
    {
      ChannelSumBound(img.pixels, k);
      var sum := ChannelSum(img.pixels, k);
      assert sum <= 255 * 256;
      assert sum / DIVISOR == sum / 256 < 256;
    }
  }

  /** A uniform 16 x 16 tile of colour c gets the key c exactly. */
  lemma UniformTileKey(img: ImgBuffer, c: Rgb)
    requires img.width == BLOCK_SIZE && img.height == BLOCK_SIZE
    requires forall i :: 0 <= i < |img.pixels| ==> img.pixels[i] == c
    ensures KeyOf(img) == c
  {
    ChannelSumUniform(img.pixels, 0, c);
    ChannelSumUniform(img.pixels, 1, c);
    ChannelSumUniform(img.pixels, 2, c);
  }

  /** The divisor stays 256 for larger tiles, and the cast then wraps: a uniform
      32 x 32 tile of colour c gets 4 * c modulo 256 per channel (mid grey 128
      becomes black). */
  lemma LargeTileKeyWraps(img: ImgBuffer, c: Rgb)
    requires img.width == 2 * BLOCK_SIZE && img.height == 2 * BLOCK_SIZE
    requires forall i :: 0 <= i < |img.pixels| ==> img.pixels[i] == c
    ensures forall k :: 0 <= k < 3 ==> KeyOf(img)[k] == (4 * c[k] as int) % 256
  {
    forall k | 0 <= k < 3
      ensures KeyOf(img)[k] == (4 * c[k] as int) % 256
    {
      ChannelSumUniform(img.pixels, k, c);
      assert |img.pixels| == 1024;
      assert ChannelSum(img.pixels, k) / DIVISOR == 4 * c[k] as int;
    }
  }

  // ---------------------------------------------------------------------------
  // Palette construction

  /** The palette entries one directory item contributes: one for a decoded tile,
      none for an item that is skipped. */
  function EntriesOf(f: DirEntry): seq<Entry>
  {
    match f
    case Decoded(img) => [Entry(KeyOf(img), img)]
    case _ => []
  }

  /** The palette built from a directory listing, in listing order. */
  function Palette(files: seq<DirEntry>): (palette: seq<Entry>)
    ensures |palette| <= |files|
    ensures forall i :: 0 <= i < |palette| ==> palette[i].key == KeyOf(palette[i].picture)
  {
    if files == [] then [] else Palette(files[..|files| - 1]) + EntriesOf(files[|files| - 1])
  }

  /** get_blocks_map: skip what cannot be read or decoded, push (key, tile) for the rest. */
  method GetBlocksMap(files: seq<DirEntry>) returns (palette: seq<Entry>)
    ensures palette == Palette(files)
  {
    palette := [];
    for i := 0 to |files|
      invariant palette == Palette(files[..i])
    {
      assert files[..i + 1][..i] == files[..i];
      match files[i]
      case Unreadable =>
      case Undecodable =>
      case Decoded(img) =>
        var key := TileKey(img);
        palette := palette + [Entry(key, img)];
    }
    assert files[..|files|] == files;
  }

  lemma {:induction false} PaletteAppend(a: seq<DirEntry>, b: seq<DirEntry>)
    ensures Palette(a + b) == Palette(a) + Palette(b)
  {
    if b != [] {
      assert (a + b)[..|a + b| - 1] == a + b[..|b| - 1];
      PaletteAppend(a, b[..|b| - 1]);
    } else {
      assert a + b == a;
    }
  }

  /** An item that cannot be read or decoded is skipped; the other entries are unchanged. */
  lemma SkippedEntry(a: seq<DirEntry>, f: DirEntry, b: seq<DirEntry>)
    requires !f.Decoded?
    ensures Palette(a + [f] + b) == Palette(a + b)
  {
    assert (a + [f])[..|a + [f]| - 1] == a;
    assert Palette(a + [f]) == Palette(a);
    PaletteAppend(a + [f], b);
    PaletteAppend(a, b);
  }

  /** A decoded tile contributes exactly one entry, placed after the entries of the
      items listed before it and before those listed after it. */
  lemma DecodedEntry(a: seq<DirEntry>, img: ImgBuffer, b: seq<DirEntry>)
    ensures Palette(a + [Decoded(img)] + b) == Palette(a) + [Entry(KeyOf(img), img)] + Palette(b)
  {
    assert (a + [Decoded(img)])[..|a + [Decoded(img)]| - 1] == a;
    assert Palette(a + [Decoded(img)]) == Palette(a) + [Entry(KeyOf(img), img)];
    PaletteAppend(a + [Decoded(img)], b);
  }

  // ---------------------------------------------------------------------------
  // Nearest-colour search

  function Abs(n: int): nat
  {
    if n < 0 then -n else n
  }

  /** Sum of the absolute channel differences over the first n channels. */
  function PartialDistance(colors: Rgb, key: Rgb, n: nat): nat
    requires n <= 3
  {
    if n == 0 then 0 else PartialDistance(colors, key, n - 1) + Abs(colors[n - 1] as int - key[n - 1] as int)
  }

  /** The channel-wise L1 distance between a pixel and a key, with the channels
      widened to signed integers before subtracting. */
  function Distance(colors: Rgb, key: Rgb): (d: nat)
    ensures d <= 3 * 255
    ensures d == 0 <==> colors == key
  {
    var d := Abs(colors[0] as int - key[0] as int)
           + Abs(colors[1] as int - key[1] as int)
           + Abs(colors[2] as int - key[2] as int);
    assert d == 0 ==> forall i :: 0 <= i < 3 ==> colors[i] == key[i];
    d
  }

  /** Summing the three channels one by one gives the distance. */
  lemma PartialDistanceComplete(colors: Rgb, key: Rgb)
    ensures PartialDistance(colors, key, 3) == Distance(colors, key)
  {
    assert PartialDistance(colors, key, 1) == Abs(colors[0] as int - key[0] as int);
    assert PartialDistance(colors, key, 2) == PartialDistance(colors, key, 1) + Abs(colors[1] as int - key[1] as int);
  }

  /** Entry i has minimal distance to the pixel and no earlier entry is as close. */
  ghost predicate IsFirstNearest(palette: seq<Entry>, pixel: Rgb, i: int)
  {
    && 0 <= i < |palette|
    && (forall j :: 0 <= j < |palette| ==> Distance(pixel, palette[i].key) <= Distance(pixel, palette[j].key))
    && (forall j :: 0 <= j < i ==> Distance(pixel, palette[i].key) < Distance(pixel, palette[j].key))
  }

  /** get_best_block: a linear scan keeping the running minimum under a strict `<`. */
  method GetBestBlock(palette: seq<Entry>, pixel: Rgb) returns (img: ImgBuffer)
    ensures palette == [] ==> img == Default()
    ensures palette != [] ==> exists i :: IsFirstNearest(palette, pixel, i) && img == palette[i].picture
  {
    var difference := U32_MAX;
    img := Default();
    ghost var best := 0;
    for n := 0 to |palette|
      invariant n == 0 ==> difference == U32_MAX && img == Default()
      invariant best <= n && (n > 0 ==> best < n)
      invariant n > 0 ==> img == palette[best].picture
      invariant n > 0 ==> difference == Distance(pixel, palette[best].key)
      invariant forall j :: 0 <= j < n ==> difference <= Distance(pixel, palette[j].key)
      invariant forall j :: 0 <= j < best ==> difference < Distance(pixel, palette[j].key)
    {
      var key := palette[n].key;
      var tmpSum := 0;
      for i := 0 to 3
        invariant tmpSum == PartialDistance(pixel, key, i)
      {
        tmpSum := tmpSum + Abs(pixel[i] as int - key[i] as int);
      }
      PartialDistanceComplete(pixel, key);
      if tmpSum < difference {
        img := palette[n].picture;
        difference := tmpSum;
        best := n;
      }
    }
    assert palette != [] ==> IsFirstNearest(palette, pixel, best);
  }

  /** The first-nearest entry is unique, so the search is deterministic. */
  lemma FirstNearestUnique(palette: seq<Entry>, pixel: Rgb, i1: int, i2: int)
    requires IsFirstNearest(palette, pixel, i1) && IsFirstNearest(palette, pixel, i2)
    ensures i1 == i2
  {
    assert Distance(pixel, palette[i1].key) <= Distance(pixel, palette[i2].key);
    assert Distance(pixel, palette[i2].key) <= Distance(pixel, palette[i1].key);
  }

  /** When the pixel's colour is some entry's key, the search lands on the first such entry. */
  lemma ExactMatchWins(palette: seq<Entry>, pixel: Rgb, i: int, j: int)
    requires IsFirstNearest(palette, pixel, i)
    requires 0 <= j < |palette| && palette[j].key == pixel
    ensures palette[i].key == pixel
    ensures forall k :: 0 <= k < i ==> palette[k].key != pixel
  {
  }

  /** A red and a blue tile: the pixel (200, 10, 10) is at distance 55 + 10 + 10 = 75
      from red and 200 + 10 + 245 = 455 from blue, so it is matched with the red tile. */
  lemma RedBlueScenario(red: ImgBuffer, blue: ImgBuffer)
    ensures IsFirstNearest([Entry([255, 0, 0], red), Entry([0, 0, 255], blue)], [200, 10, 10], 0)
  {
  }
}
