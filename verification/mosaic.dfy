/**
 * The converter of src/main.rs: a palette kept in a hash map keyed by average colour,
 * the nearest-colour search over that map, and the assembly of the output image,
 * where every input pixel is replaced by its matched 16 x 16 tile.
 *
 * The producer thread and the channel only carry `(x, y, block)` messages in the
 * order the producer sends them; here the producer's messages are a sequence and
 * the consumer loop takes them in that order.
 */
module Mosaic {
  import opened ImageBuf
  import opened BlockMap

  /** The matcher's starting distance; any real distance is at most 3 * 255. */
  const SENTINEL: nat := 10000

  const I16_MIN: int := -0x8000
  const I16_MAX: int := 0x7FFF

  /** A run either completes with a value or stops on a panic (`unwrap`, an index
      outside an image). */
  datatype Outcome<T> = Ok(value: T) | Panic

  // ---------------------------------------------------------------------------
  // Palette construction into a HashMap

  /** The map after inserting every decoded tile of the listing in order; a later
      tile with the same key replaces the earlier one. */
  function HashPalette(files: seq<DirEntry>): (m: map<Rgb, ImgBuffer>)
    ensures forall k :: k in m ==> KeyOf(m[k]) == k
  {
    if files == [] then map[]
    else
      var m := HashPalette(files[..|files| - 1]);
      match files[|files| - 1]
      case Decoded(img) => m[KeyOf(img) := img]
      case _ => m
  }

  /** get_blocks_map of main.rs: an unreadable directory item stops the run
      (`i.unwrap()`), an undecodable file is skipped, every other tile is inserted
      under its key. */
  method GetBlocksMap(files: seq<DirEntry>) returns (r: Outcome<map<Rgb, ImgBuffer>>)
    ensures r.Ok? <==> Unreadable !in files
    ensures r.Ok? ==> r.value == HashPalette(files)
  {
    var m := map[];
    for i := 0 to |files|
      invariant Unreadable !in files[..i]
      invariant m == HashPalette(files[..i])
    {
      assert files[..i + 1][..i] == files[..i];
      match files[i]
      case Unreadable =>
        return Panic;
      case Undecodable =>
      case Decoded(img) =>
        var key := TileKey(img);
        m := m[key := img];
    }
    assert files[..|files|] == files;
    return Ok(m);
  }

  /** The last decoded tile with a given key is the one the map keeps. */
  lemma {:induction false} LastTileWins(files: seq<DirEntry>, i: nat, img: ImgBuffer)
    requires i < |files| && files[i] == Decoded(img)
    requires forall j :: i < j < |files| && files[j].Decoded? ==> KeyOf(files[j].img) != KeyOf(img)
    ensures KeyOf(img) in HashPalette(files) && HashPalette(files)[KeyOf(img)] == img
  {
    if i < |files| - 1 {
      var init := files[..|files| - 1];
      LastTileWins(init, i, img);
    }
  }

  /** The map and the vector built from the same listing agree: every vector entry's
      key is in the map, and every map entry is an entry of the vector. */
  lemma {:induction false} HashPaletteAgreesWithVec(files: seq<DirEntry>)
    ensures forall e :: e in Palette(files) ==> e.key in HashPalette(files)
    ensures forall k :: k in HashPalette(files) ==> Entry(k, HashPalette(files)[k]) in Palette(files)
  {
    if files != [] {
      var init := files[..|files| - 1];
      HashPaletteAgreesWithVec(init);
    }
  }

  // ---------------------------------------------------------------------------
  // Nearest-colour search over the map

  /** `order` is an iteration order of m: it lists every key of m exactly once. */
  ghost predicate IsIterationOrder(m: map<Rgb, ImgBuffer>, order: seq<Rgb>)
  {
    && (forall k :: k in m <==> k in order)
    && (forall i, j :: 0 <= i < j < |order| ==> order[i] != order[j])
  }

  /** order[i] is the first key of the iteration order at minimal distance from the pixel. */
  ghost predicate IsFirstNearestKey(order: seq<Rgb>, pixel: Rgb, i: int)
  {
    && 0 <= i < |order|
    && (forall j :: 0 <= j < |order| ==> Distance(pixel, order[i]) <= Distance(pixel, order[j]))
    && (forall j :: 0 <= j < i ==> Distance(pixel, order[i]) < Distance(pixel, order[j]))
  }

  /** img is the tile of a key in m whose distance to the pixel is minimal. */
  ghost predicate IsNearest(m: map<Rgb, ImgBuffer>, pixel: Rgb, img: ImgBuffer)
  {
    exists k :: k in m && m[k] == img && forall k' :: k' in m ==> Distance(pixel, k) <= Distance(pixel, k')
  }

  /** What get_best_block returns when the map is iterated in `order`: the empty
      image for an empty map, otherwise the tile of the first key in that order
      at minimal distance. */
  ghost predicate BestMatch(m: map<Rgb, ImgBuffer>, order: seq<Rgb>, pixel: Rgb, img: ImgBuffer)
  {
    && IsIterationOrder(m, order)
    && if m == map[] then img == Default()
       else exists i {:trigger IsFirstNearestKey(order, pixel, i)} :: IsFirstNearestKey(order, pixel, i) && img == m[order[i]]
  }

  /** get_best_block of main.rs. `for (key, img) in map` visits the keys in the
      map's iteration order `order`; with i16 differences and the sentinel 10000
      the first key visited always replaces the sentinel. */
  method GetBestBlock(m: map<Rgb, ImgBuffer>, order: seq<Rgb>, pixel: Rgb) returns (img: ImgBuffer)
    requires IsIterationOrder(m, order)
    ensures BestMatch(m, order, pixel, img)
  {
    var difference := SENTINEL;
    img := Default();
    ghost var best := 0;
    for n := 0 to |order|
      invariant n == 0 ==> difference == SENTINEL && img == Default()
      invariant best <= n && (n > 0 ==> best < n)
      invariant n > 0 ==> img == m[order[best]]
      invariant n > 0 ==> difference == Distance(pixel, order[best])
      invariant forall j :: 0 <= j < n ==> difference <= Distance(pixel, order[j])
      invariant forall j :: 0 <= j < best ==> difference < Distance(pixel, order[j])
    {
      var key := order[n];
      var tmpSum := 0;
      for i := 0 to 3
        invariant tmpSum == PartialDistance(pixel, key, i)
      {
        var d := pixel[i] as int - key[i] as int;
        assert I16_MIN <= d <= I16_MAX;
        tmpSum := tmpSum + Abs(d);
      }
      PartialDistanceComplete(pixel, key);
      if tmpSum < difference {
        img := m[key];
        difference := tmpSum;
        best := n;
      }
    }
    if |order| == 0 {
      assert m == map[] by {
        assert forall k :: k !in m;
      }
    } else {
      assert order[0] in m;
      assert IsFirstNearestKey(order, pixel, best);
    }
  }

  /** The `(key, tile)` pairs of m in the given iteration order, as a palette vector. */
  function InOrder(m: map<Rgb, ImgBuffer>, order: seq<Rgb>): (entries: seq<Entry>)
    requires forall i :: 0 <= i < |order| ==> order[i] in m
    ensures |entries| == |order|
  {
    seq(|order|, i requires 0 <= i < |order| => Entry(order[i], m[order[i]]))
  }

  /** Searching the map in a given iteration order chooses the same position as the
      vector search of block_map.rs over the map's pairs listed in that order. */
  lemma MapSearchIsVectorSearch(m: map<Rgb, ImgBuffer>, order: seq<Rgb>, pixel: Rgb, i: int)
    requires IsIterationOrder(m, order)
    ensures IsFirstNearestKey(order, pixel, i) <==> IsFirstNearest(InOrder(m, order), pixel, i)
  {
    var entries := InOrder(m, order);
    assert forall j :: 0 <= j < |order| ==> entries[j].key == order[j];
  }

  /** The tile chosen in any iteration order is at minimal distance over the whole map. */
  lemma FirstInOrderIsNearest(m: map<Rgb, ImgBuffer>, order: seq<Rgb>, pixel: Rgb, img: ImgBuffer)
    requires BestMatch(m, order, pixel, img) && m != map[]
    ensures IsNearest(m, pixel, img)
  {
    var i :| IsFirstNearestKey(order, pixel, i) && img == m[order[i]];
    forall k' | k' in m
      ensures Distance(pixel, order[i]) <= Distance(pixel, k')
    {
      var j :| 0 <= j < |order| && order[j] == k';
    }
  }

  /** For a fixed iteration order the search is deterministic: equal pixels get the
      same tile. */
  lemma BestMatchDeterministic(m: map<Rgb, ImgBuffer>, order: seq<Rgb>, pixel: Rgb, img1: ImgBuffer, img2: ImgBuffer)
    requires BestMatch(m, order, pixel, img1) && BestMatch(m, order, pixel, img2)
    ensures img1 == img2
  {
    if m != map[] {
      var i1 :| IsFirstNearestKey(order, pixel, i1) && img1 == m[order[i1]];
      var i2 :| IsFirstNearestKey(order, pixel, i2) && img2 == m[order[i2]];
      MapSearchIsVectorSearch(m, order, pixel, i1);
      MapSearchIsVectorSearch(m, order, pixel, i2);
      FirstNearestUnique(InOrder(m, order), pixel, i1, i2);
    }
  }

  // ---------------------------------------------------------------------------
  // Producer: one message per input pixel, in row-major order

  /** What the channel carries: input coordinates and the matched tile. */
  datatype Message = Message(x: nat, y: nat, block: ImgBuffer)

  /** The messages are one per pixel of a width x height image, message n for the
      pixel whose row-major index is n. */
  ghost predicate RowMajor(sent: seq<Message>, width: nat, height: nat)
  {
    && |sent| == width * height
    && forall n :: 0 <= n < |sent| ==>
         sent[n].x < width && sent[n].y < height && n == sent[n].y * width + sent[n].x
  }

  /** The producer thread: for each `(x, y, p)` of `enumerate_pixels`, send
      `(x, y, get_best_block(&map, p))`. The map is not changed while the producer
      runs, so every search iterates it in the same order. */
  method Produce(m: map<Rgb, ImgBuffer>, order: seq<Rgb>, input: ImgBuffer) returns (sent: seq<Message>)
    requires IsIterationOrder(m, order)
    ensures RowMajor(sent, input.width, input.height)
    ensures forall n :: 0 <= n < |sent| ==>
              sent[n].x < input.width && sent[n].y < input.height &&
              BestMatch(m, order, GetPixel(input, sent[n].x, sent[n].y), sent[n].block)
    ensures forall n1, n2 :: 0 <= n1 < |sent| && 0 <= n2 < |sent| && input.pixels[n1] == input.pixels[n2] ==>
              sent[n1].block == sent[n2].block
  {
    sent := [];
    for n := 0 to |input.pixels|
      invariant |sent| == n
      invariant forall i :: 0 <= i < n ==> (sent[i].x, sent[i].y) == Coordinates(i, input.width, input.height)
      invariant forall i :: 0 <= i < n ==> BestMatch(m, order, input.pixels[i], sent[i].block)
    {
      var xy := Coordinates(n, input.width, input.height);
      var x, y := xy.0, xy.1;
      var block := GetBestBlock(m, order, input.pixels[n]);
      ghost var prev := sent;
      sent := sent + [Message(x, y, block)];
      assert forall i :: 0 <= i < n ==> sent[i] == prev[i];
    }
    forall n | 0 <= n < |sent|
      ensures sent[n].x < input.width && sent[n].y < input.height && n == sent[n].y * input.width + sent[n].x
      ensures BestMatch(m, order, GetPixel(input, sent[n].x, sent[n].y), sent[n].block)
    {
      var xy := Coordinates(n, input.width, input.height);
      assert GetPixel(input, sent[n].x, sent[n].y) == input.pixels[n];
    }
    SamePixelSameTile(m, order, input.pixels, sent);
  }

  /** Messages for pixels of equal colour carry the same tile. */
  lemma SamePixelSameTile(m: map<Rgb, ImgBuffer>, order: seq<Rgb>, pixels: seq<Rgb>, sent: seq<Message>)
    requires |sent| == |pixels|
    requires forall i :: 0 <= i < |sent| ==> BestMatch(m, order, pixels[i], sent[i].block)
    ensures forall n1, n2 :: 0 <= n1 < |sent| && 0 <= n2 < |sent| && pixels[n1] == pixels[n2] ==>
              sent[n1].block == sent[n2].block
  {
    forall n1, n2 | 0 <= n1 < |sent| && 0 <= n2 < |sent| && pixels[n1] == pixels[n2]
      ensures sent[n1].block == sent[n2].block
    {
      BestMatchDeterministic(m, order, pixels[n1], sent[n1].block, sent[n2].block);
    }
  }

  // ---------------------------------------------------------------------------
  // Consumer: copy every received tile into the output image

  /** `block.get_pixel(x, y)` for x, y < BLOCK_SIZE stays inside the tile. */
  predicate Fits(block: ImgBuffer)
  {
    block.width >= BLOCK_SIZE && block.height >= BLOCK_SIZE
  }

  /** Output pixel (X, Y) lies in the 16 x 16 region a message is written to.
      Here and in the lemmas about regions the tile side `BLOCK_SIZE` is written as
      the literal 16: multiplying or dividing by a literal keeps the arithmetic
      linear for the solver, while a named constant makes it nonlinear. */
  predicate Covers(msg: Message, X: int, Y: int)
  {
    16 * msg.x <= X < 16 * msg.x + 16 && 16 * msg.y <= Y < 16 * msg.y + 16
  }

  /** The colour of output pixel (X, Y) after the given messages were written over
      a pixel of colour `background`: the tile of the last message covering it. */
  function Painted(msgs: seq<Message>, X: int, Y: int, background: Rgb): Rgb
    requires forall n :: 0 <= n < |msgs| ==> Fits(msgs[n].block)
  {
    if msgs == [] then background
    else
      var last := msgs[|msgs| - 1];
      assert Fits(last.block);
      if Covers(last, X, Y) then GetPixel(last.block, X - 16 * last.x, Y - 16 * last.y)
      else Painted(msgs[..|msgs| - 1], X, Y, background)
  }

  /** The consumer loop: for each message, copy the 16 x 16 tile to
      (16 x + i, 16 y + j). A tile smaller than 16 x 16 makes `get_pixel` panic;
      the run then stops and the output is never saved. */
  method Consume(output: array2<Rgb>, received: seq<Message>) returns (ok: bool)
    requires forall n :: 0 <= n < |received| ==>
               16 * received[n].x + 16 <= output.Length0 && 16 * received[n].y + 16 <= output.Length1
    modifies output
    ensures ok <==> forall n :: 0 <= n < |received| ==> Fits(received[n].block)
    ensures ok ==> forall X, Y :: 0 <= X < output.Length0 && 0 <= Y < output.Length1 ==>
                     output[X, Y] == Painted(received, X, Y, old(output[X, Y]))
  {
    for n := 0 to |received|
      invariant forall i :: 0 <= i < n ==> Fits(received[i].block)
      invariant forall X, Y :: 0 <= X < output.Length0 && 0 <= Y < output.Length1 ==>
                  output[X, Y] == Painted(received[..n], X, Y, old(output[X, Y]))
    {
      var msg := received[n];
      if !Fits(msg.block) {
        return false;
      }
      assert received[..n + 1][..n] == received[..n];
      for i := 0 to BLOCK_SIZE
        invariant forall X, Y :: 0 <= X < output.Length0 && 0 <= Y < output.Length1 ==>
                    output[X, Y] == if Covers(msg, X, Y) && X - 16 * msg.x < i
                                    then GetPixel(msg.block, X - 16 * msg.x, Y - 16 * msg.y)
                                    else Painted(received[..n], X, Y, old(output[X, Y]))
      {
        for j := 0 to BLOCK_SIZE
          invariant forall X, Y :: 0 <= X < output.Length0 && 0 <= Y < output.Length1 ==>
                      output[X, Y] == if Covers(msg, X, Y) && (X - 16 * msg.x < i || (X - 16 * msg.x == i && Y - 16 * msg.y < j))
                                      then GetPixel(msg.block, X - 16 * msg.x, Y - 16 * msg.y)
                                      else Painted(received[..n], X, Y, old(output[X, Y]))
        {
          output[16 * msg.x + i, 16 * msg.y + j] := GetPixel(msg.block, i, j);
        }
      }
    }
    assert received[..|received|] == received;
    return true;
  }

  /** A pixel covered by exactly one message shows that message's tile. */
  lemma {:induction false} PaintedByUniqueCover(msgs: seq<Message>, k: nat, X: int, Y: int, background: Rgb)
    requires forall n :: 0 <= n < |msgs| ==> Fits(msgs[n].block)
    requires k < |msgs| && Covers(msgs[k], X, Y)
    requires forall n :: 0 <= n < |msgs| && n != k ==> !Covers(msgs[n], X, Y)
    ensures Painted(msgs, X, Y, background) == GetPixel(msgs[k].block, X - 16 * msgs[k].x, Y - 16 * msgs[k].y)
  {
    if k < |msgs| - 1 {
      PaintedByUniqueCover(msgs[..|msgs| - 1], k, X, Y, background);
    }
  }

  /** A pixel no message covers keeps its colour. */
  lemma {:induction false} PaintedUncovered(msgs: seq<Message>, X: int, Y: int, background: Rgb)
    requires forall n :: 0 <= n < |msgs| ==> Fits(msgs[n].block)
    requires forall n :: 0 <= n < |msgs| ==> !Covers(msgs[n], X, Y)
    ensures Painted(msgs, X, Y, background) == background
  {
    if msgs != [] {
      PaintedUncovered(msgs[..|msgs| - 1], X, Y, background);
    }
  }

  /** No two messages are sent to the same coordinates. */
  ghost predicate DistinctTargets(msgs: seq<Message>)
  {
    forall i, j :: 0 <= i < |msgs| && 0 <= j < |msgs| && i != j ==>
      msgs[i].x != msgs[j].x || msgs[i].y != msgs[j].y
  }

  /** When no two messages share coordinates, at most one region covers a pixel. */
  lemma UniqueCover(msgs: seq<Message>, k: nat, X: int, Y: int)
    requires DistinctTargets(msgs)
    requires k < |msgs| && Covers(msgs[k], X, Y)
    ensures forall n :: 0 <= n < |msgs| && n != k ==> !Covers(msgs[n], X, Y)
  {
  }

  /** A message occurring at two positions occurs at least twice in the multiset. */
  lemma RepeatedTwice(s: seq<Message>, i: nat, j: nat)
    requires i < j < |s| && s[i] == s[j]
    ensures multiset(s)[s[i]] >= 2
  {
    assert s == s[..j] + [s[j]] + s[j + 1..];
    assert s[i] in multiset(s[..j]);
  }

  /** With distinct targets no message occurs twice. */
  lemma {:induction false} DistinctOnce(s: seq<Message>, e: Message)
    requires DistinctTargets(s)
    ensures multiset(s)[e] <= 1
  {
    if s != [] {
      var init := s[..|s| - 1];
      assert s == init + [s[|s| - 1]];
      assert DistinctTargets(init);
      DistinctOnce(init, e);
    }
  }

  /** A reordering of messages with distinct targets keeps distinct targets and
      consists of the same tiles. */
  lemma ReorderKeepsTargets(msgs: seq<Message>, other: seq<Message>)
    requires multiset(msgs) == multiset(other)
    requires DistinctTargets(msgs)
    requires forall n :: 0 <= n < |msgs| ==> Fits(msgs[n].block)
    ensures DistinctTargets(other)
    ensures forall n :: 0 <= n < |other| ==> Fits(other[n].block)
  {
    forall n | 0 <= n < |other|
      ensures exists k :: 0 <= k < |msgs| && msgs[k] == other[n]
    {
      assert other[n] in multiset(msgs);
    }
    forall i, j | 0 <= i < |other| && 0 <= j < |other| && i != j
      ensures other[i].x != other[j].x || other[i].y != other[j].y
    {
      var a :| 0 <= a < |msgs| && msgs[a] == other[i];
      var b :| 0 <= b < |msgs| && msgs[b] == other[j];
      if a == b {
        if i < j { RepeatedTwice(other, i, j); } else { RepeatedTwice(other, j, i); }
        DistinctOnce(msgs, other[i]);
      }
    }
  }

  /** A pixel no message covers is covered by no message of a reordering either,
      so both keep their background colour. */
  lemma UncoveredAnyOrder(msgs: seq<Message>, other: seq<Message>, X: int, Y: int, background: Rgb)
    requires multiset(msgs) == multiset(other)
    requires forall n :: 0 <= n < |msgs| ==> Fits(msgs[n].block)
    requires !exists k :: 0 <= k < |msgs| && Covers(msgs[k], X, Y)
    ensures forall n :: 0 <= n < |other| ==> Fits(other[n].block)
    ensures Painted(msgs, X, Y, background) == background
    ensures Painted(other, X, Y, background) == background
  {
    forall n | 0 <= n < |other|
      ensures Fits(other[n].block) && !Covers(other[n], X, Y)
    {
      assert other[n] in multiset(msgs);
      var k :| 0 <= k < |msgs| && msgs[k] == other[n];
    }
    PaintedUncovered(msgs, X, Y, background);
    PaintedUncovered(other, X, Y, background);
  }

  /** A pixel covered by message k is covered, in a reordering with distinct
      targets, by that same message alone, so both show the same tile pixel. */
  lemma CoveredAnyOrder(msgs: seq<Message>, other: seq<Message>, k: nat, X: int, Y: int, background: Rgb)
    requires multiset(msgs) == multiset(other)
    requires DistinctTargets(msgs) && DistinctTargets(other)
    requires forall n :: 0 <= n < |msgs| ==> Fits(msgs[n].block)
    requires forall n :: 0 <= n < |other| ==> Fits(other[n].block)
    requires k < |msgs| && Covers(msgs[k], X, Y)
    ensures Painted(msgs, X, Y, background) == Painted(other, X, Y, background)
  {
    assert msgs[k] in multiset(other);
    var k' :| 0 <= k' < |other| && other[k'] == msgs[k];
    UniqueCover(msgs, k, X, Y);
    UniqueCover(other, k', X, Y);
    PaintedByUniqueCover(msgs, k, X, Y, background);
    PaintedByUniqueCover(other, k', X, Y, background);
  }

  /** Because the target regions are disjoint, the result does not depend on the
      order in which the messages are consumed. */
  lemma ConsumeOrderIrrelevant(msgs: seq<Message>, other: seq<Message>, X: int, Y: int, background: Rgb)
    requires multiset(msgs) == multiset(other)
    requires DistinctTargets(msgs)
    requires forall n :: 0 <= n < |msgs| ==> Fits(msgs[n].block)
    ensures DistinctTargets(other)
    ensures forall n :: 0 <= n < |other| ==> Fits(other[n].block)
    ensures Painted(msgs, X, Y, background) == Painted(other, X, Y, background)
  {
    ReorderKeepsTargets(msgs, other);
    if k :| 0 <= k < |msgs| && Covers(msgs[k], X, Y) {
      CoveredAnyOrder(msgs, other, k, X, Y, background);
    } else {
      UncoveredAnyOrder(msgs, other, X, Y, background);
    }
  }

  /** Every output pixel of a 16 width x 16 height image lies in the region of
      exactly one of the producer's messages: the one for input pixel (X / 16, Y / 16). */
  lemma ExactlyOneCover(sent: seq<Message>, width: nat, height: nat, X: int, Y: int)
    requires RowMajor(sent, width, height)
    requires 0 <= X < 16 * width && 0 <= Y < 16 * height
    ensures (Y / 16) * width + X / 16 < |sent|
    ensures Covers(sent[(Y / 16) * width + X / 16], X, Y)
    ensures forall n :: 0 <= n < |sent| && Covers(sent[n], X, Y) ==> n == (Y / 16) * width + X / 16
  {
    var k := (Y / 16) * width + X / 16;
    RowMajorInBounds(X / 16, Y / 16, width, height);
    RowMajorUnique(sent[k].x, sent[k].y, X / 16, Y / 16, width);
  }

  /** After all the producer's messages are written, output pixel (X, Y) is pixel
      (X mod 16, Y mod 16) of the tile sent for input pixel (X / 16, Y / 16). */
  lemma PaintedRowMajor(sent: seq<Message>, width: nat, height: nat, n: nat, X: int, Y: int, background: Rgb)
    requires RowMajor(sent, width, height)
    requires forall i :: 0 <= i < |sent| ==> Fits(sent[i].block)
    requires 0 <= X < 16 * width && 0 <= Y < 16 * height
    requires n < |sent| && sent[n].x == X / 16 && sent[n].y == Y / 16
    ensures Painted(sent, X, Y, background) == GetPixel(sent[n].block, X % 16, Y % 16)
  {
    ExactlyOneCover(sent, width, height, X, Y);
    PaintedByUniqueCover(sent, n, X, Y, background);
  }

  // ---------------------------------------------------------------------------
  // The whole conversion

  /** The output assembly of main: allocate a black (16 W) x (16 H) image, match
      every input pixel, and copy the matched tiles into place. `sent` is what
      crossed the channel. */
  method Compose(m: map<Rgb, ImgBuffer>, order: seq<Rgb>, input: ImgBuffer) returns (output: array2<Rgb>, ok: bool, ghost sent: seq<Message>)
    requires IsIterationOrder(m, order)
    ensures fresh(output)
    ensures output.Length0 == BLOCK_SIZE * input.width && output.Length1 == BLOCK_SIZE * input.height
    ensures RowMajor(sent, input.width, input.height)
    ensures forall n :: 0 <= n < |sent| ==>
              sent[n].x < input.width && sent[n].y < input.height &&
              BestMatch(m, order, GetPixel(input, sent[n].x, sent[n].y), sent[n].block)
    ensures forall n1, n2 :: 0 <= n1 < |sent| && 0 <= n2 < |sent| && input.pixels[n1] == input.pixels[n2] ==>
              sent[n1].block == sent[n2].block
    ensures ok <==> forall n :: 0 <= n < |sent| ==> Fits(sent[n].block)
    ensures m == map[] && |input.pixels| > 0 ==> !ok
    ensures (forall k :: k in m ==> Fits(m[k])) && (m != map[] || |input.pixels| == 0) ==> ok
    ensures ok ==> forall X, Y, n ::
                     (0 <= X < output.Length0 && 0 <= Y < output.Length1 &&
                      0 <= n < |sent| && sent[n].x == X / 16 && sent[n].y == Y / 16) ==>
                     output[X, Y] == GetPixel(sent[n].block, X % 16, Y % 16)
  {
    output := new Rgb[BLOCK_SIZE * input.width, BLOCK_SIZE * input.height]((_, _) => BLACK);
    var channel := Produce(m, order, input);
    ok := Consume(output, channel);
    sent := channel;
    if m == map[] && |input.pixels| > 0 {
      assert !Fits(sent[0].block);
    }
    if (forall k :: k in m ==> Fits(m[k])) && m != map[] {
      forall n | 0 <= n < |sent|
        ensures Fits(sent[n].block)
      {
        FirstInOrderIsNearest(m, order, GetPixel(input, sent[n].x, sent[n].y), sent[n].block);
      }
    }
    if ok {
      forall X, Y, n | 0 <= X < output.Length0 && 0 <= Y < output.Length1 &&
                       0 <= n < |sent| && sent[n].x == X / 16 && sent[n].y == Y / 16
        ensures output[X, Y] == GetPixel(sent[n].block, X % 16, Y % 16)
      {
        PaintedRowMajor(sent, input.width, input.height, n, X, Y, BLACK);
      }
    }
  }
}
