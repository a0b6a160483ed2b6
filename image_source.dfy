/** The image source side of `CanvasImage`: the huge-image gate, the raw
    decoder tile that is rewritten to address one band of rows, and the row
    bands `smaller()` walks to build the pyramid base of a huge image. */
module ImageSource {
  import opened Numeric

  /** Side of the square whose area an image must exceed to be huge. */
  const HugeSize: nat := 14000
  /** Height of the row bands `smaller()` decodes. */
  const BandWidth: nat := 1024
  /** Bytes per pixel of the raw RGB data. */
  const BytesPerPixel: nat := 3

  /** An image is huge when it has more than 14000 * 14000 pixels and its first
      tile is stored `raw` (the only storage that can be read band by band). */
  predicate IsHuge(imwidth: nat, imheight: nat, codec: string)
  {
    imwidth * imheight > HugeSize * HugeSize && codec == "raw"
  }

  /** The gate: a huge image is a raw one with a side longer than 14000, so its
      ratio max(w, h) / 14000 exceeds 1; no other codec is ever huge, whatever
      the size; and growing an image keeps it huge. */
  lemma HugeGate(imwidth: nat, imheight: nat, codec: string, w': nat, h': nat)
    ensures IsHuge(imwidth, imheight, codec) ==> codec == "raw" && Max(imwidth, imheight) > HugeSize
    ensures codec != "raw" ==> !IsHuge(imwidth, imheight, codec)
    ensures IsHuge(imwidth, imheight, codec) && imwidth <= w' && imheight <= h' ==> IsHuge(w', h', codec)
  {
    if imwidth <= HugeSize && imheight <= HugeSize {
      MulMonotone(imwidth, HugeSize, imheight);
      MulMonotone(imheight, HugeSize, HugeSize);
      assert imwidth * imheight <= HugeSize * HugeSize;
    }
    if imwidth <= w' && imheight <= h' {
      MulMonotone(imwidth, w', imheight);
      MulMonotone(imheight, h', w');
      assert imwidth * imheight <= w' * h';
    }
  }

  /** The decoder tile `[kind, (0, 0, width, rows), offset, args]` with the
      parts the viewer rewrites: the band height and the byte offset. */
  datatype Tile = Tile(width: int, rows: int, offset: int)

  /** Byte offset of row `top` in the raw data that starts at `dataOffset`. */
  function RowOffset(imwidth: nat, dataOffset: int, top: int): int
  {
    dataOffset + imwidth * top * BytesPerPixel
  }

  /** The tile as `crop` and `__show_image` rewrite it to read `rows` rows
      starting at row `top`. */
  function BandTile(t: Tile, imwidth: nat, dataOffset: int, top: int, rows: int): Tile
  {
    t.(rows := rows, offset := RowOffset(imwidth, dataOffset, top))
  }

  /** A band of rows addresses bytes inside the raw pixel data exactly when its
      rows are rows of the image. */
  lemma BandWithinData(imwidth: nat, imheight: nat, dataOffset: int, top: int, rows: int)
    requires imwidth >= 1 && rows >= 1
    ensures var stride := imwidth * BytesPerPixel;
      var start := RowOffset(imwidth, dataOffset, top);
      (dataOffset <= start && start + stride * rows <= dataOffset + stride * imheight)
        <==> (0 <= top && top + rows <= imheight)
  {
    var stride := imwidth * BytesPerPixel;
    assert stride >= 1;
    var start := RowOffset(imwidth, dataOffset, top);
    assert start == dataOffset + stride * top;
    assert start + stride * rows == dataOffset + stride * (top + rows) by {
      MulDistributes(top, rows, stride);
    }
    if 0 <= top && top + rows <= imheight {
      MulMonotone(0, top, stride);
      MulMonotone(top + rows, imheight, stride);
    }
    if top < 0 {
      MulMonotone(top, -1, stride);
    }
    if top + rows > imheight {
      MulMonotone(imheight + 1, top + rows, stride);
      MulDistributes(imheight, 1, stride);
    }
  }

  // ---------------------------------------------------------------------
  // The row bands of smaller()

  /** One band `smaller()` decodes: its first row, its height and the byte
      offset the tile is given for it. */
  datatype Band = Band(top: nat, rows: nat, offset: int)

  /** The bands from row `i` on. */
  function BandsFrom(imwidth: nat, imheight: nat, dataOffset: int, i: nat): seq<Band>
    decreases imheight - i
  {
    if i < imheight then
      var band := Min(BandWidth, imheight - i);
      [Band(i, band, RowOffset(imwidth, dataOffset, i))] + BandsFrom(imwidth, imheight, dataOffset, i + band)
    else
      []
  }

  /** All bands of an image. */
  function Bands(imwidth: nat, imheight: nat, dataOffset: int): seq<Band>
  {
    BandsFrom(imwidth, imheight, dataOffset, 0)
  }

  predicate Covers(b: Band, row: int)
  {
    b.top <= row < b.top + b.rows
  }

  /** The bands from row `i` start with the band at `i`, when there are rows
      left. */
  lemma BandsFromUnfold(imwidth: nat, imheight: nat, dataOffset: int, i: nat)
    requires i < imheight
    ensures var band := Min(BandWidth, imheight - i);
      BandsFrom(imwidth, imheight, dataOffset, i) ==
        [Band(i, band, RowOffset(imwidth, dataOffset, i))] + BandsFrom(imwidth, imheight, dataOffset, i + band)
  {
  }

  /** Each band from row `i` starts at or after `i`, is min(1024, height - top)
      rows high and reads from offset + width * top * 3. */
  lemma {:induction false} BandAt(imwidth: nat, imheight: nat, dataOffset: int, i: nat, j: nat)
    requires i <= imheight && j < |BandsFrom(imwidth, imheight, dataOffset, i)|
    ensures var b := BandsFrom(imwidth, imheight, dataOffset, i)[j];
      i <= b.top && 1 <= b.rows == Min(BandWidth, imheight - b.top) &&
      b.offset == RowOffset(imwidth, dataOffset, b.top)
    decreases imheight - i
  {
    BandsFromUnfold(imwidth, imheight, dataOffset, i);
    if j > 0 {
      BandAt(imwidth, imheight, dataOffset, i + Min(BandWidth, imheight - i), j - 1);
    }
  }

  /** Band j + 1 starts at the row after band j ends. */
  lemma {:induction false} BandsAdjacent(imwidth: nat, imheight: nat, dataOffset: int, i: nat, j: nat)
    requires i <= imheight && j + 1 < |BandsFrom(imwidth, imheight, dataOffset, i)|
    ensures var bs := BandsFrom(imwidth, imheight, dataOffset, i);
      bs[j + 1].top == bs[j].top + bs[j].rows
    decreases imheight - i
  {
    var next := i + Min(BandWidth, imheight - i);
    BandsFromUnfold(imwidth, imheight, dataOffset, i);
    if j == 0 {
      BandsFromUnfold(imwidth, imheight, dataOffset, next);
    } else {
      BandsAdjacent(imwidth, imheight, dataOffset, next, j - 1);
    }
  }

  /** There are bands from row `i` exactly when rows are left; the first starts
      at `i` and the last ends at the image height. */
  lemma {:induction false} BandsFromEnds(imwidth: nat, imheight: nat, dataOffset: int, i: nat)
    requires i <= imheight
    ensures var bs := BandsFrom(imwidth, imheight, dataOffset, i);
      (bs == [] <==> i == imheight) &&
      (bs != [] ==> bs[0].top == i && bs[|bs| - 1].top + bs[|bs| - 1].rows == imheight)
    decreases imheight - i
  {
    if i < imheight {
      var next := i + Min(BandWidth, imheight - i);
      BandsFromUnfold(imwidth, imheight, dataOffset, i);
      BandsFromEnds(imwidth, imheight, dataOffset, next);
    }
  }

  /** The shape of the bands from row `i`: each is min(1024, height - top) rows
      high, starts where the previous one ended (the first at `i`, the last
      ends at the image height), and reads from offset + width * top * 3. */
  lemma BandsFromShape(imwidth: nat, imheight: nat, dataOffset: int, i: nat)
    requires i <= imheight
    ensures var bs := BandsFrom(imwidth, imheight, dataOffset, i);
      (bs == [] <==> i == imheight) &&
      (bs != [] ==> bs[0].top == i && bs[|bs| - 1].top + bs[|bs| - 1].rows == imheight) &&
      (forall j :: 0 <= j < |bs| ==>
         i <= bs[j].top && 1 <= bs[j].rows == Min(BandWidth, imheight - bs[j].top) &&
         bs[j].offset == RowOffset(imwidth, dataOffset, bs[j].top)) &&
      (forall j :: 0 <= j < |bs| - 1 ==> bs[j + 1].top == bs[j].top + bs[j].rows)
  {
    var bs := BandsFrom(imwidth, imheight, dataOffset, i);
    BandsFromEnds(imwidth, imheight, dataOffset, i);
    forall j | 0 <= j < |bs|
      ensures i <= bs[j].top && 1 <= bs[j].rows == Min(BandWidth, imheight - bs[j].top)
      ensures bs[j].offset == RowOffset(imwidth, dataOffset, bs[j].top)
    {
      BandAt(imwidth, imheight, dataOffset, i, j);
    }
    forall j | 0 <= j < |bs| - 1
      ensures bs[j + 1].top == bs[j].top + bs[j].rows
    {
      BandsAdjacent(imwidth, imheight, dataOffset, i, j);
    }
  }

  /** The bands from row `i` cover every row from `i` up to the height, each
      exactly once. */
  lemma {:induction false} BandsFromCoverOnce(imwidth: nat, imheight: nat, dataOffset: int, i: nat, row: int)
    requires i <= imheight
    ensures var bs := BandsFrom(imwidth, imheight, dataOffset, i);
      (i <= row < imheight ==> exists j :: 0 <= j < |bs| && Covers(bs[j], row)) &&
      (forall j1, j2 :: 0 <= j1 < |bs| && 0 <= j2 < |bs| && Covers(bs[j1], row) && Covers(bs[j2], row) ==> j1 == j2)
    decreases imheight - i
  {
    if i < imheight {
      var next := i + Min(BandWidth, imheight - i);
      var bs := BandsFrom(imwidth, imheight, dataOffset, i);
      var rest := BandsFrom(imwidth, imheight, dataOffset, next);
      BandsFromUnfold(imwidth, imheight, dataOffset, i);
      BandsFromCoverOnce(imwidth, imheight, dataOffset, next, row);
      if i <= row < imheight {
        if row < next {
          assert Covers(bs[0], row);
        } else {
          var j :| 0 <= j < |rest| && Covers(rest[j], row);
          assert Covers(bs[j + 1], row);
        }
      }
      forall j1, j2 | 0 <= j1 < |bs| && 0 <= j2 < |bs| && Covers(bs[j1], row) && Covers(bs[j2], row)
        ensures j1 == j2
      {
        if j1 > 0 && j2 > 0 {
          assert Covers(rest[j1 - 1], row) && Covers(rest[j2 - 1], row);
        } else if j1 > 0 {
          BandAt(imwidth, imheight, dataOffset, next, j1 - 1);
        } else if j2 > 0 {
          BandAt(imwidth, imheight, dataOffset, next, j2 - 1);
        }
      }
    }
  }

  /** There are ceil(height / 1024) bands. */
  lemma {:induction false} BandsFromCount(imwidth: nat, imheight: nat, dataOffset: int, i: nat)
    requires i <= imheight
    ensures |BandsFrom(imwidth, imheight, dataOffset, i)| == (imheight - i + BandWidth - 1) / BandWidth
    decreases imheight - i
  {
    if i < imheight {
      var band := Min(BandWidth, imheight - i);
      BandsFromCount(imwidth, imheight, dataOffset, i + band);
    }
  }

  /** The bands of `smaller()` read the raw data of a huge image front to back:
      band j + 1 starts at the byte after band j ends, the first at the data
      offset and the last ends at the end of the pixel data. */
  lemma BandsReadDataContiguously(imwidth: nat, imheight: nat, dataOffset: int)
    requires imheight >= 1
    ensures var bs := Bands(imwidth, imheight, dataOffset);
      var stride := imwidth * BytesPerPixel;
      |bs| >= 1 && bs[0].offset == dataOffset &&
      bs[|bs| - 1].offset + stride * bs[|bs| - 1].rows == dataOffset + stride * imheight &&
      (forall j :: 0 <= j < |bs| - 1 ==> bs[j + 1].offset == bs[j].offset + stride * bs[j].rows)
  {
    var bs := Bands(imwidth, imheight, dataOffset);
    var stride := imwidth * BytesPerPixel;
    BandsFromEnds(imwidth, imheight, dataOffset, 0);
    BandAt(imwidth, imheight, dataOffset, 0, 0);
    var last := bs[|bs| - 1];
    assert last.offset + stride * last.rows == dataOffset + stride * imheight by {
      BandAt(imwidth, imheight, dataOffset, 0, |bs| - 1);
      OffsetAfter(imwidth, dataOffset, last.top, last.rows);
      assert RowOffset(imwidth, dataOffset, imheight) == dataOffset + stride * imheight;
    }
    forall j | 0 <= j < |bs| - 1
      ensures bs[j + 1].offset == bs[j].offset + stride * bs[j].rows
    {
      BandAt(imwidth, imheight, dataOffset, 0, j);
      BandAt(imwidth, imheight, dataOffset, 0, j + 1);
      BandsAdjacent(imwidth, imheight, dataOffset, 0, j);
      OffsetAfter(imwidth, dataOffset, bs[j].top, bs[j].rows);
    }
  }

  /** The offset of the row `rows` rows further on is `rows` strides further. */
  lemma OffsetAfter(imwidth: nat, dataOffset: int, top: int, rows: int)
    ensures RowOffset(imwidth, dataOffset, top + rows) ==
      RowOffset(imwidth, dataOffset, top) + imwidth * BytesPerPixel * rows
  {
    assert imwidth * (top + rows) * BytesPerPixel == imwidth * top * BytesPerPixel + imwidth * BytesPerPixel * rows by {
      MulDistributes(top, rows, imwidth * BytesPerPixel);
    }
  }

  /** `smaller()`'s progress total `round(0.5 + height / 1024)` as written. */
  function ProgressTotal(imheight: nat): int
  {
    RoundHalfEven(0.5 + imheight as real / BandWidth as real)
  }

  /** As written the progress total over-counts when the height is an odd
      multiple of 1024: a 1024-row image is read in one band, announced as 2. */
  lemma ProgressTotalOverCounts()
    ensures ProgressTotal(1024) == 2
    ensures |Bands(1, 1024, 0)| == 1
  {
    assert 0.5 + 1024 as real / BandWidth as real == 1.5;
    BandsFromCount(1, 1024, 0, 0);
  }
}
