/** Cutting glyphs out of the sprite atlas (`generateNumberImage`) and drawing
    a byte string as the glyphs of its characters side by side
    (`createConcatenatedImage`). `Render` is the value the drawn image must
    have; the lemmas below say what it looks like. */
module Renderer {
  import opened Raster
  import opened GlyphTable

  /** Characters mapped to the bitmaps drawn for them. */
  type GlyphSet = map<byte, Bitmap>

  /** Every glyph of `g` is a 100 by 100 bitmap. */
  ghost predicate IsGlyphSet(g: GlyphSet) {
    forall c :: c in g ==> IsBitmap(g[c], GlyphSize, GlyphSize)
  }

  /** Every character of `bs` has a glyph in `g`. */
  ghost predicate Drawable(g: GlyphSet, bs: seq<byte>) {
    forall i :: 0 <= i < |bs| ==> bs[i] in g
  }

  /** `a` is large enough to hold every cell of the glyph table. */
  ghost predicate IsAtlas(a: Bitmap) {
    |a| >= AtlasWidth && forall x :: 0 <= x < |a| ==> |a[x]| >= AtlasHeight
  }

  /** The glyph of `c`: the 100 by 100 block of the atlas at `c`'s offset. */
  ghost function Glyph(atlas: Bitmap, c: byte): (b: Bitmap)
    requires IsAtlas(atlas) && c in Cs
    ensures IsBitmap(b, GlyphSize, GlyphSize)
    ensures forall x, y :: 0 <= x < GlyphSize && 0 <= y < GlyphSize ==>
      b[x][y] == atlas[Offset(c).x + x][Offset(c).y + y]
  {
    Crop(atlas, Offset(c), GlyphSize, GlyphSize)
  }

  /** The glyph set the atlas yields: one glyph per table character. */
  ghost function GlyphsOf(atlas: Bitmap): (g: GlyphSet)
    requires IsAtlas(atlas)
    ensures g.Keys == Cs.Keys && IsGlyphSet(g)
    ensures forall c :: c in g ==> g[c] == Glyph(atlas, c)
  {
    map c | c in Cs :: Glyph(atlas, c)
  }

  /** The image of `bs`: the glyphs of its characters left to right, with
      no gap. Its width is 100 per character. */
  ghost function Render(g: GlyphSet, bs: seq<byte>): (b: Bitmap)
    requires Drawable(g, bs)
    ensures IsGlyphSet(g) ==> |b| == GlyphSize * |bs|
  {
    if bs == [] then [] else g[bs[0]] + Render(g, bs[1..])
  }

  /** The image is exactly 100 * |bs| wide and 100 high. */
  lemma {:induction false} RenderSize(g: GlyphSet, bs: seq<byte>)
    requires IsGlyphSet(g) && Drawable(g, bs)
    ensures IsBitmap(Render(g, bs), GlyphSize * |bs|, GlyphSize)
  {
    if bs != [] {
      RenderSize(g, bs[1..]);
      var head, tail := g[bs[0]], Render(g, bs[1..]);
      forall x | 0 <= x < |head + tail| ensures |(head + tail)[x]| == GlyphSize {
        if x >= |head| {
          assert (head + tail)[x] == tail[x - |head|];
        }
      }
    }
  }

  /** Pixel (x, y) of the image is pixel (x mod 100, y) of the glyph of
      character x / 100. */
  lemma {:induction false} RenderAt(g: GlyphSet, bs: seq<byte>, x: nat, y: nat)
    requires IsGlyphSet(g) && Drawable(g, bs)
    requires x < GlyphSize * |bs| && y < GlyphSize
    ensures x / GlyphSize < |bs| && |Render(g, bs)[x]| == GlyphSize
    ensures Render(g, bs)[x][y] == g[bs[x / GlyphSize]][x % GlyphSize][y]
  {
    if x >= GlyphSize {
      RenderAt(g, bs[1..], x - GlyphSize, y);
      assert (x - GlyphSize) / GlyphSize == x / GlyphSize - 1;
      assert (x - GlyphSize) % GlyphSize == x % GlyphSize;
    }
  }

  /** Drawing `s1 + s2` draws `s1`, then `s2` right after it. */
  lemma {:induction false} RenderAppend(g: GlyphSet, s1: seq<byte>, s2: seq<byte>)
    requires Drawable(g, s1) && Drawable(g, s2)
    ensures Drawable(g, s1 + s2)
    ensures Render(g, s1 + s2) == Render(g, s1) + Render(g, s2)
  {
    if s1 != [] {
      RenderAppend(g, s1[1..], s2);
      assert (s1 + s2)[0] == s1[0] && (s1 + s2)[1..] == s1[1..] + s2;
      calc {
        Render(g, s1 + s2);
        g[s1[0]] + Render(g, s1[1..] + s2);
        g[s1[0]] + (Render(g, s1[1..]) + Render(g, s2));
        (g[s1[0]] + Render(g, s1[1..])) + Render(g, s2);
      }
    } else {
      assert s1 + s2 == s2;
    }
  }

  /** Column x of `s2`'s image is column 100 * |s1| + x of the image of
      `s1 + s2`: `s2` is drawn shifted right by the width of `s1`. */
  lemma {:induction false} RenderShifted(g: GlyphSet, s1: seq<byte>, s2: seq<byte>, x: nat)
    requires IsGlyphSet(g) && Drawable(g, s1) && Drawable(g, s2)
    requires x < GlyphSize * |s2|
    ensures Drawable(g, s1 + s2)
    ensures GlyphSize * |s1| + x < |Render(g, s1 + s2)|
    ensures Render(g, s1 + s2)[GlyphSize * |s1| + x] == Render(g, s2)[x]
  {
    RenderAppend(g, s1, s2);
    ConcatRight(Render(g, s1), Render(g, s2), x);
  }

  /** Column `|a| + x` of `a + b` is column x of `b`. */
  lemma ConcatRight(a: Bitmap, b: Bitmap, x: nat)
    requires x < |b|
    ensures |a| + x < |a + b| && (a + b)[|a| + x] == b[x]
  {
  }

  /** A single character is drawn as exactly its glyph. */
  lemma RenderSingle(g: GlyphSet, c: byte)
    requires c in g
    ensures Drawable(g, [c])
    ensures Render(g, [c]) == g[c]
  {
    assert [c][1..] == [];
  }

  /** The empty string is drawn as an image of width 0. */
  lemma RenderEmpty(g: GlyphSet)
    ensures Drawable(g, [])
    ensures |Render(g, [])| == 0
  {
  }

  /** End to end: pixel (x, y) of the image of `bs` drawn with the glyphs of
      `atlas` is the atlas pixel at the offset of character x / 100, moved by
      (x mod 100, y). */
  lemma {:induction false} RenderFromAtlas(atlas: Bitmap, bs: seq<byte>, x: nat, y: nat)
    requires IsAtlas(atlas) && forall i :: 0 <= i < |bs| ==> bs[i] in Cs
    requires x < GlyphSize * |bs| && y < GlyphSize
    ensures Drawable(GlyphsOf(atlas), bs)
    ensures x / GlyphSize < |bs| && |Render(GlyphsOf(atlas), bs)[x]| == GlyphSize
    ensures Render(GlyphsOf(atlas), bs)[x][y] ==
      atlas[Offset(bs[x / GlyphSize]).x + x % GlyphSize][Offset(bs[x / GlyphSize]).y + y]
  {
    var g := GlyphsOf(atlas);
    RenderAt(g, bs, x, y);
    var c := bs[x / GlyphSize];
    var glyph := Glyph(atlas, c);
    assert g[c] == glyph;
    assert glyph[x % GlyphSize][y] == atlas[Offset(c).x + x % GlyphSize][Offset(c).y + y];
  }

  /** The buffers of a glyph map. */
  ghost function Buffers(images: map<byte, array2<Pixel>>): set<array2<Pixel>> {
    set c | c in images :: images[c]
  }

  /** The glyph set the buffers of `images` currently hold. */
  ghost function GlyphsIn(images: map<byte, array2<Pixel>>): (g: GlyphSet)
    reads Buffers(images)
    ensures g.Keys == images.Keys
    ensures forall c :: c in g ==> g[c] == Snapshot(images[c])
  {
    map c | c in images :: Snapshot(images[c])
  }

  /** Buffers that hold the atlas's glyphs, one per table character, hold
      the atlas's glyph set. */
  lemma GlyphsInAtlas(images: map<byte, array2<Pixel>>, atlas: Bitmap)
    requires IsAtlas(atlas) && images.Keys == Cs.Keys
    requires forall c :: c in images ==> Snapshot(images[c]) == Glyph(atlas, c)
    ensures GlyphsIn(images) == GlyphsOf(atlas)
  {
  }

  /** Every buffer of `images` is 100 by 100. */
  predicate GlyphBuffers(images: map<byte, array2<Pixel>>) {
    forall c :: c in images ==>
      images[c].Length0 == GlyphSize && images[c].Length1 == GlyphSize
  }

  /** `generateNumberImage(b, src)`: a fresh 100 by 100 buffer holding the
      block of `src` at `b`'s offset in the table. */
  method GenerateNumberImage(b: byte, src: array2<Pixel>) returns (rgba: array2<Pixel>)
    requires b in Cs
    requires src.Length0 >= AtlasWidth && src.Length1 >= AtlasHeight
    ensures fresh(rgba)
    ensures rgba.Length0 == GlyphSize && rgba.Length1 == GlyphSize
    ensures forall x, y :: 0 <= x < GlyphSize && 0 <= y < GlyphSize ==>
      rgba[x, y] == src[Offset(b).x + x, Offset(b).y + y]
    ensures IsAtlas(Snapshot(src)) && Snapshot(rgba) == Glyph(Snapshot(src), b)
  {
    rgba := NewRgba(GlyphSize, GlyphSize);
    var r := Rectangle(Point(0, 0), Point(GlyphSize, GlyphSize));
    Draw(rgba, r, src, Offset(b), Over);
    BitmapEq(Snapshot(rgba), Glyph(Snapshot(src), b), GlyphSize, GlyphSize);
  }

  /** The loop of `init`: for every character of the table, in no particular
      order, cut its glyph out of `src` into a fresh buffer. */
  method LoadGlyphs(src: array2<Pixel>) returns (images: map<byte, array2<Pixel>>)
    requires src.Length0 >= AtlasWidth && src.Length1 >= AtlasHeight
    ensures images.Keys == Cs.Keys && GlyphBuffers(images)
    ensures forall c :: c in images ==> fresh(images[c])
    ensures forall c, d :: c in images && d in images && c != d ==> images[c] != images[d]
    ensures IsAtlas(Snapshot(src)) && GlyphsIn(images) == GlyphsOf(Snapshot(src))
  {
    ghost var atlas := Snapshot(src);
    images := map[];
    var todo := Cs.Keys;
    while todo != {}
      invariant todo <= Cs.Keys && images.Keys == Cs.Keys - todo
      invariant GlyphBuffers(images)
      invariant forall c :: c in images ==> fresh(images[c]) && Snapshot(images[c]) == Glyph(atlas, c)
      invariant forall c, d :: c in images && d in images && c != d ==> images[c] != images[d]
      decreases |todo|
    {
      var b :| b in todo;
      var img := GenerateNumberImage(b, src);
      images := images[b := img];
      todo := todo - {b};
    }
    GlyphsInAtlas(images, atlas);
  }

  /** Pixel x of a 100-pixel band starting at 100 * i is column x - 100 * i of
      glyph i. */
  lemma BandIndex(i: nat, x: nat)
    requires GlyphSize * i <= x < GlyphSize * i + GlyphSize
    ensures x / GlyphSize == i && x % GlyphSize == x - GlyphSize * i
  {
  }

  /** `createConcatenatedImage(bs)`: a fresh buffer 100 * |bs| wide and 100
      high whose 100-pixel band i holds the glyph of `bs[i]`. */
  method CreateConcatenatedImage(images: map<byte, array2<Pixel>>, bs: seq<byte>)
    returns (rgba: array2<Pixel>)
    requires GlyphBuffers(images)
    requires forall i :: 0 <= i < |bs| ==> bs[i] in images
    ensures fresh(rgba)
    ensures rgba.Length0 == GlyphSize * |bs| && rgba.Length1 == GlyphSize
    ensures forall x, y :: 0 <= x < rgba.Length0 && 0 <= y < GlyphSize ==>
      x / GlyphSize < |bs| && rgba[x, y] == images[bs[x / GlyphSize]][x % GlyphSize, y]
    ensures Drawable(GlyphsIn(images), bs) && Snapshot(rgba) == Render(GlyphsIn(images), bs)
  {
    rgba := NewRgba(|bs| * GlyphSize, GlyphSize);
    var x := 0;
    for i := 0 to |bs|
      invariant x == GlyphSize * i
      invariant forall px, py :: 0 <= px < rgba.Length0 && 0 <= py < GlyphSize ==>
        if px < x then px / GlyphSize < |bs| && rgba[px, py] == images[bs[px / GlyphSize]][px % GlyphSize, py]
        else rgba[px, py] == Transparent
    {
      var r := Rectangle(Point(x, 0), Point(x + GlyphSize, GlyphSize));
      Draw(rgba, r, images[bs[i]], Point(0, 0), Src);
      forall px, py | x <= px < x + GlyphSize && 0 <= py < GlyphSize
        ensures px / GlyphSize == i && rgba[px, py] == images[bs[i]][px % GlyphSize, py]
      {
        BandIndex(i, px);
      }
      x := x + GlyphSize;
    }
    var g := GlyphsIn(images);
    RenderSize(g, bs);
    forall px, py | 0 <= px < GlyphSize * |bs| && 0 <= py < GlyphSize
      ensures Snapshot(rgba)[px][py] == Render(g, bs)[px][py]
    {
      RenderAt(g, bs, px, py);
    }
    BitmapEq(Snapshot(rgba), Render(g, bs), GlyphSize * |bs|, GlyphSize);
  }
}
