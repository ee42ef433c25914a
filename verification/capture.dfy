/** `captureScreenToCanvas` (identical in components/find.cjs, index.cjs and
    index.mjs): the screen bitmap from `robot.screen.capture()` stores each
    row in `byteWidth` bytes, possibly padded, and each pixel as blue, green,
    red and a fourth byte; the canvas wants tightly packed red, green, blue,
    alpha. */
module Capture {
  import opened Wrappers

  type Byte = b: int | 0 <= b < 256

  /** The bitmap `robot.screen.capture()` returns. */
  datatype Bitmap = Bitmap(width: nat, height: nat, byteWidth: nat, bytesPerPixel: nat, image: seq<Byte>)

  /** Byte offset of pixel `(x, y)` in the bitmap: rows are `byteWidth` apart. */
  function SourceIndex(b: Bitmap, x: nat, y: nat): nat {
    y * b.byteWidth + x * b.bytesPerPixel
  }

  /** Position of pixel `(x, y)` in the packed output, counted in pixels. */
  function PixelIndex(w: nat, x: nat, y: nat): nat {
    y * w + x
  }

  /** Every read `readUInt8(i)`, `readUInt8(i + 1)`, `readUInt8(i + 2)` of the
      loop lies inside the image buffer. */
  ghost predicate Readable(b: Bitmap) {
    forall y, x :: 0 <= y < b.height && 0 <= x < b.width ==> SourceIndex(b, x, y) + 2 < |b.image|
  }

  /** Output pixel `(x, y)` holds the bitmap pixel's red, green and blue and
      an opaque alpha. */
  ghost predicate PixelOk(b: Bitmap, d: seq<Byte>, x: nat, y: nat)
    requires SourceIndex(b, x, y) + 2 < |b.image|
  {
    var i := SourceIndex(b, x, y);
    var j := PixelIndex(b.width, x, y) * 4;
    && j + 3 < |d|
    && d[j] == b.image[i + 2]
    && d[j + 1] == b.image[i + 1]
    && d[j + 2] == b.image[i]
    && d[j + 3] == 255
  }

  lemma MulLeft(a: nat, b: nat, c: nat)
    requires a <= b
    ensures a * c <= b * c
  {
  }

  lemma PixelIndexBound(w: nat, h: nat, x: nat, y: nat)
    requires x < w && y < h
    ensures PixelIndex(w, x, y) < w * h
  {
    MulLeft(y, h - 1, w);
    assert (h - 1) * w == h * w - w;
  }

  /** Pixels earlier in row-major order come earlier in the output. */
  lemma PixelIndexOrder(w: nat, x': nat, y': nat, x: nat, y: nat)
    requires x' < w && x < w
    requires y' < y || (y' == y && x' < x)
    ensures PixelIndex(w, x', y') < PixelIndex(w, x, y)
  {
    if y' < y {
      MulLeft(y' + 1, y, w);
      assert (y' + 1) * w == y' * w + w;
    }
  }

  /** The last pixel is the one read furthest into the buffer. */
  lemma SourceIndexMax(b: Bitmap, x: nat, y: nat)
    requires x < b.width && y < b.height
    ensures SourceIndex(b, x, y) <= SourceIndex(b, b.width - 1, b.height - 1)
  {
    MulLeft(y, b.height - 1, b.byteWidth);
    MulLeft(x, b.width - 1, b.bytesPerPixel);
  }

  /** A pixel's bytes only depend on the output bytes before `j`. */
  lemma PixelOkFrame(b: Bitmap, d1: seq<Byte>, d2: seq<Byte>, x: nat, y: nat, j: nat)
    requires SourceIndex(b, x, y) + 2 < |b.image|
    requires PixelOk(b, d1, x, y)
    requires PixelIndex(b.width, x, y) * 4 + 3 < j <= |d1| == |d2|
    requires forall k :: 0 <= k < j ==> d1[k] == d2[k]
    ensures PixelOk(b, d2, x, y)
  {
  }

  /** The body of the inner loop: one pixel's four writes. */
  method WritePixel(a: array<Byte>, b: Bitmap, x: nat, y: nat)
    requires x < b.width && y < b.height && a.Length == b.width * b.height * 4
    requires SourceIndex(b, x, y) + 2 < |b.image|
    modifies a
    ensures PixelOk(b, a[..], x, y)
    ensures forall k :: 0 <= k < PixelIndex(b.width, x, y) * 4 ==> a[k] == old(a[k])
  {
    var i := SourceIndex(b, x, y);
    var j := PixelIndex(b.width, x, y) * 4;
    PixelIndexBound(b.width, b.height, x, y);
    a[j] := b.image[i + 2];
    a[j + 1] := b.image[i + 1];
    a[j + 2] := b.image[i];
    a[j + 3] := 255;
  }

  /** The conversion loop. If some read falls outside the buffer,
      `readUInt8` throws a `RangeError` and the canvas is never returned. */
  method ToRgba(b: Bitmap) returns (r: Result<seq<Byte>, string>)
    ensures r.Success? <==> Readable(b)
    ensures r.Success? ==> |r.value| == b.width * b.height * 4
    ensures r.Success? ==> forall y, x :: 0 <= y < b.height && 0 <= x < b.width ==>
              SourceIndex(b, x, y) + 2 < |b.image| && PixelOk(b, r.value, x, y)
  {
    var w, h := b.width, b.height;
    if w > 0 && h > 0 && SourceIndex(b, w - 1, h - 1) + 2 >= |b.image| {
      return Failure("RangeError: offset out of range");
    }
    assert Readable(b) by {
      forall y, x | 0 <= y < h && 0 <= x < w
        ensures SourceIndex(b, x, y) + 2 < |b.image|
      {
        SourceIndexMax(b, x, y);
      }
    }
    var a := new Byte[w * h * 4](_ => 0);
    var y := 0;
    while y < h
      invariant 0 <= y <= h
      invariant forall y', x' :: 0 <= y' < y && 0 <= x' < w ==> PixelOk(b, a[..], x', y')
    {
      var x := 0;
      while x < w
        invariant 0 <= x <= w
        invariant forall y', x' :: 0 <= y' < y && 0 <= x' < w ==> PixelOk(b, a[..], x', y')
        invariant forall x' :: 0 <= x' < x ==> PixelOk(b, a[..], x', y)
      {
        ghost var before := a[..];
        WritePixel(a, b, x, y);
        ghost var j := PixelIndex(w, x, y) * 4;
        forall y', x' | 0 <= y' < y && 0 <= x' < w
          ensures PixelOk(b, a[..], x', y')
        {
          PixelIndexOrder(w, x', y', x, y);
          PixelOkFrame(b, before, a[..], x', y', j);
        }
        forall x' | 0 <= x' < x
          ensures PixelOk(b, a[..], x', y)
        {
          PixelIndexOrder(w, x', y, x, y);
          PixelOkFrame(b, before, a[..], x', y, j);
        }
        x := x + 1;
      }
      y := y + 1;
    }
    return Success(a[..]);
  }

  /** Every output byte belongs to one pixel and channel, so the per-pixel
      contract of `ToRgba` leaves no output byte unwritten. */
  lemma OutputCovered(w: nat, h: nat, k: nat)
    requires k < w * h * 4
    ensures w > 0 && (k / 4) / w < h
    ensures k == PixelIndex(w, (k / 4) % w, (k / 4) / w) * 4 + k % 4
  {
    var p := k / 4;
    assert p < w * h;
    var y := p / w;
    var x := p % w;
    assert p == y * w + x;
    if y >= h {
      MulLeft(h, y, w);
    }
  }

  /** Distinct pixels occupy disjoint output bytes, so no byte is written twice. */
  lemma PixelsDisjoint(w: nat, x1: nat, y1: nat, c1: nat, x2: nat, y2: nat, c2: nat)
    requires x1 < w && x2 < w && c1 < 4 && c2 < 4
    requires PixelIndex(w, x1, y1) * 4 + c1 == PixelIndex(w, x2, y2) * 4 + c2
    ensures x1 == x2 && y1 == y2 && c1 == c2
  {
    if y1 < y2 || (y1 == y2 && x1 < x2) {
      PixelIndexOrder(w, x1, y1, x2, y2);
    } else if y2 < y1 || (y1 == y2 && x2 < x1) {
      PixelIndexOrder(w, x2, y2, x1, y1);
    }
  }
}
