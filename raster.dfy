/** Raster images: the part of Go's `image` and `image/draw` packages that the
    counter endpoint uses, over an abstract RGBA pixel.

    An image buffer is an `array2<Pixel>` indexed `[x, y]`: `Length0` is the
    width and `Length1` the height, with the origin at the top-left corner, as
    for an `image.RGBA` whose bounds start at (0, 0). A `Bitmap` is the value
    of such a buffer: a sequence of columns, so `b[x][y]` is pixel (x, y) and
    putting two bitmaps side by side is sequence concatenation. */
module Raster {

  newtype byte = x: int | 0 <= x < 256

  /** One premultiplied RGBA pixel; its colour arithmetic is not modelled. */
  datatype Pixel = Rgba(r: byte, g: byte, b: byte, a: byte)

  /** The pixel every fresh `image.NewRGBA` buffer is filled with. */
  const Transparent: Pixel := Rgba(0, 0, 0, 0)

  datatype Point = Point(x: int, y: int)

  /** `image.Rectangle`: the half-open box [min.x, max.x) x [min.y, max.y). */
  datatype Rectangle = Rectangle(min: Point, max: Point) {
    predicate Contains(x: int, y: int) {
      min.x <= x < max.x && min.y <= y < max.y
    }
  }

  /** The compositing operators of `image/draw`. */
  datatype Op = Over | Src

  /** A column-major bitmap value: `b[x][y]`. */
  type Bitmap = seq<seq<Pixel>>

  /** `b` is a `w` by `h` bitmap. */
  ghost predicate IsBitmap(b: Bitmap, w: nat, h: nat) {
    |b| == w && forall x :: 0 <= x < |b| ==> |b[x]| == h
  }

  /** Two bitmaps of one size that agree on every pixel are equal. */
  lemma BitmapEq(b: Bitmap, c: Bitmap, w: nat, h: nat)
    requires IsBitmap(b, w, h) && IsBitmap(c, w, h)
    requires forall x, y :: 0 <= x < w && 0 <= y < h ==> b[x][y] == c[x][y]
    ensures b == c
  {
    forall x | 0 <= x < w ensures b[x] == c[x] {
      assert forall y :: 0 <= y < h ==> b[x][y] == c[x][y];
    }
  }

  /** The bitmap currently held by buffer `a`. */
  ghost function Snapshot(a: array2<Pixel>): (b: Bitmap)
    reads a
    ensures IsBitmap(b, a.Length0, a.Length1)
    ensures forall x, y :: 0 <= x < a.Length0 && 0 <= y < a.Length1 ==> b[x][y] == a[x, y]
  {
    seq(a.Length0, x requires 0 <= x < a.Length0 reads a =>
      seq(a.Length1, y requires 0 <= y < a.Length1 reads a => a[x, y]))
  }

  /** The `w` by `h` block of `src` whose top-left corner is `at`. */
  ghost function Crop(src: Bitmap, at: Point, w: nat, h: nat): (b: Bitmap)
    requires 0 <= at.x && at.x + w <= |src|
    requires 0 <= at.y && forall x :: at.x <= x < at.x + w ==> at.y + h <= |src[x]|
    ensures IsBitmap(b, w, h)
    ensures forall x, y :: 0 <= x < w && 0 <= y < h ==> b[x][y] == src[at.x + x][at.y + y]
  {
    seq(w, x requires 0 <= x < w => seq(h, y requires 0 <= y < h => src[at.x + x][at.y + y]))
  }

  /** `image.NewRGBA(image.Rectangle{image.Point{0, 0}, image.Point{w, h}})`:
      a fresh, fully transparent `w` by `h` buffer. */
  method NewRgba(w: nat, h: nat) returns (img: array2<Pixel>)
    ensures fresh(img)
    ensures img.Length0 == w && img.Length1 == h
    ensures forall x, y :: 0 <= x < w && 0 <= y < h ==> img[x, y] == Transparent
  {
    img := new Pixel[w, h]((_, _) => Transparent);
  }

  /** `draw.Draw(dst, r, src, sp, op)`: pixel (x, y) of `r` in `dst` receives
      pixel (x, y) - r.min + sp of `src`; every other pixel of `dst` keeps its
      value. `Src` replaces the destination pixel. `Over` composites the source
      over it; this model only admits it onto a transparent destination, where
      source-over-transparent leaves exactly the source pixel. The library's
      clipping of `r` to the two images is not modelled: the rectangle has to
      lie inside both. The library also accepts a source that is the
      destination itself; this model requires two different buffers, which
      holds wherever the endpoint draws, since it always draws into a buffer it
      has just allocated. */
  method Draw(dst: array2<Pixel>, r: Rectangle, src: array2<Pixel>, sp: Point, op: Op)
    requires dst != src
    requires 0 <= r.min.x <= r.max.x <= dst.Length0
    requires 0 <= r.min.y <= r.max.y <= dst.Length1
    requires 0 <= sp.x && sp.x + (r.max.x - r.min.x) <= src.Length0
    requires 0 <= sp.y && sp.y + (r.max.y - r.min.y) <= src.Length1
    requires op == Over ==>
      forall x, y :: r.Contains(x, y) ==> dst[x, y] == Transparent
    modifies dst
    ensures forall x, y :: 0 <= x < dst.Length0 && 0 <= y < dst.Length1 ==>
      dst[x, y] == if r.Contains(x, y) then src[x - r.min.x + sp.x, y - r.min.y + sp.y]
                   else old(dst[x, y])
  {
    var y := r.min.y;
    while y < r.max.y
      invariant r.min.y <= y <= r.max.y
      invariant forall px, py :: 0 <= px < dst.Length0 && 0 <= py < dst.Length1 ==>
        dst[px, py] == if r.min.x <= px < r.max.x && r.min.y <= py < y
                       then src[px - r.min.x + sp.x, py - r.min.y + sp.y]
                       else old(dst[px, py])
    {
      var x := r.min.x;
      while x < r.max.x
        invariant r.min.x <= x <= r.max.x
        invariant forall px, py :: 0 <= px < dst.Length0 && 0 <= py < dst.Length1 ==>
          dst[px, py] == if r.min.x <= px < r.max.x && (r.min.y <= py < y || (py == y && px < x))
                         then src[px - r.min.x + sp.x, py - r.min.y + sp.y]
                         else old(dst[px, py])
      {
        dst[x, y] := src[x - r.min.x + sp.x, y - r.min.y + sp.y];
        x := x + 1;
      }
      y := y + 1;
    }
  }
}
