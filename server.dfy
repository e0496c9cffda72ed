/** The counter endpoint: the package state (the counter map `m` and the glyph
    buffers `images`), the startup `init` that cuts the glyphs out of the
    atlas, and the request handler `ServeHTTP` with its `counter` branch. */
module Server {
  import opened Raster
  import opened GlyphTable
  import opened Renderer
  import opened Format

  datatype Option<T> = None | Some(value: T)

  /** What the handler reads of an HTTP request: its method, the path of its
      URL (tested for the counter prefix) and the whole URL as a string (the
      counter key). */
  datatype Request = Request(verb: string, path: string, url: string)

  /** Only paths that start with this reach the counter. */
  const CounterPrefix: string := "/counter"

  /** `strings.HasPrefix(path, "/counter")`: the path is at least as long as
      the prefix and begins with it. */
  function IsCounterPath(path: string): (b: bool)
    ensures b <==> |path| >= |CounterPrefix| && path[..|CounterPrefix|] == CounterPrefix
  {
    CounterPrefix <= path
  }

  /** `m[k]` as Go reads it: a missing key reads as 0. While every stored
      count is positive, a count of 0 means exactly that the key is absent. */
  function CountOf(m: map<string, nat>, k: string): (n: nat)
    ensures Positive(m) ==> (n == 0 <==> k !in m)
  {
    if k in m then m[k] else 0
  }

  /** Every stored count is at least 1: a key is only ever added by a GET. */
  ghost predicate Positive(m: map<string, nat>) {
    forall k :: k in m ==> m[k] >= 1
  }

  /** The counter map after the `counter` branch handles method `verb` on `url`:
      GET increments, DELETE removes, every other method leaves it alone. */
  function CounterStep(m: map<string, nat>, verb: string, url: string): (s: map<string, nat>)
    ensures forall k :: k != url ==> (k in s <==> k in m) && CountOf(s, k) == CountOf(m, k)
    ensures CountOf(s, url) ==
      if verb == "GET" then CountOf(m, url) + 1
      else if verb == "DELETE" then 0
      else CountOf(m, url)
    ensures verb == "GET" ==> url in s
    ensures verb == "DELETE" ==> url !in s
    ensures verb != "GET" && verb != "DELETE" ==> s == m
  {
    if verb == "GET" then m[url := CountOf(m, url) + 1]
    else if verb == "DELETE" then m - {url}
    else m
  }

  /** The counter map after `ServeHTTP` handles `r`. */
  function Serve(m: map<string, nat>, r: Request): (s: map<string, nat>)
    ensures !IsCounterPath(r.path) ==> s == m
    ensures forall k :: k != r.url ==> (k in s <==> k in m) && CountOf(s, k) == CountOf(m, k)
  {
    if IsCounterPath(r.path) then CounterStep(m, r.verb, r.url) else m
  }

  /** The counter map after handling `rs` in order. */
  function Run(m: map<string, nat>, rs: seq<Request>): map<string, nat>
    decreases |rs|
  {
    if rs == [] then m else Run(Serve(m, rs[0]), rs[1..])
  }

  /** `r` increments counter `k`. */
  predicate Hits(r: Request, k: string) {
    IsCounterPath(r.path) && r.verb == "GET" && r.url == k
  }

  /** `r` removes counter `k`. */
  predicate Deletes(r: Request, k: string) {
    IsCounterPath(r.path) && r.verb == "DELETE" && r.url == k
  }

  /** How many requests of `rs` increment counter `k`. */
  function HitCount(rs: seq<Request>, k: string): nat
    decreases |rs|
  {
    if rs == [] then 0 else (if Hits(rs[0], k) then 1 else 0) + HitCount(rs[1..], k)
  }

  /** A GET sets the key's count to its previous value plus one, an absent key
      counting as 0, and leaves every other key as it was. */
  lemma GetIncrements(m: map<string, nat>, k: string)
    ensures k in CounterStep(m, "GET", k)
    ensures CounterStep(m, "GET", k)[k] == CountOf(m, k) + 1
    ensures k !in m ==> CounterStep(m, "GET", k)[k] == 1
    ensures forall j :: j != k ==>
      (j in CounterStep(m, "GET", k) <==> j in m) && CountOf(CounterStep(m, "GET", k), j) == CountOf(m, j)
  {
  }

  /** A DELETE removes exactly the key. */
  lemma DeleteRemoves(m: map<string, nat>, k: string)
    ensures CounterStep(m, "DELETE", k).Keys == m.Keys - {k}
    ensures forall j :: j in CounterStep(m, "DELETE", k) ==> CounterStep(m, "DELETE", k)[j] == m[j]
  {
  }

  /** After a DELETE the next GET on the key yields 1 again. */
  lemma DeleteThenGet(m: map<string, nat>, k: string)
    ensures CounterStep(CounterStep(m, "DELETE", k), "GET", k)[k] == 1
  {
  }

  /** Methods other than GET and DELETE change nothing. */
  lemma OtherMethodsIgnored(m: map<string, nat>, verb: string, url: string)
    requires verb != "GET" && verb != "DELETE"
    ensures CounterStep(m, verb, url) == m
  {
  }

  /** Requests outside the counter prefix change nothing, whatever their
      method. */
  lemma OtherPathsIgnored(m: map<string, nat>, r: Request)
    requires !IsCounterPath(r.path)
    ensures Serve(m, r) == m
  {
  }

  /** Handling a request keeps every stored count at least 1. */
  lemma ServeKeepsPositive(m: map<string, nat>, r: Request)
    requires Positive(m)
    ensures Positive(Serve(m, r))
  {
  }

  /** Until it is deleted, a counter is its starting value plus the number
      of GETs on it: counters only go up, by one per GET. */
  lemma {:induction false} RunCounts(m: map<string, nat>, rs: seq<Request>, k: string)
    requires forall i :: 0 <= i < |rs| ==> !Deletes(rs[i], k)
    ensures CountOf(Run(m, rs), k) == CountOf(m, k) + HitCount(rs, k)
    decreases |rs|
  {
    if rs != [] {
      RunCounts(Serve(m, rs[0]), rs[1..], k);
    }
  }

  /** The image a GET returns for count `n` is drawable and 100 pixels wide
      per digit. */
  lemma ResponseShape(atlas: Bitmap, n: nat)
    requires IsAtlas(atlas)
    ensures Drawable(GlyphsOf(atlas), Decimal(n))
    ensures IsBitmap(Render(GlyphsOf(atlas), Decimal(n)), GlyphSize * |Decimal(n)|, GlyphSize)
  {
    DecimalDrawable(n);
    RenderSize(GlyphsOf(atlas), Decimal(n));
  }

  /** The endpoint together with the package-level state it works on. */
  class Endpoint {
    /** The counter map `m`: URL to number of GETs since the last DELETE. */
    var m: map<string, nat>
    /** The glyph buffers `images`, filled once by `Init`. */
    var images: map<byte, array2<Pixel>>
    /** The atlas the glyphs were cut from. */
    ghost var atlas: Bitmap

    /** The glyphs are the table's cells of the atlas, 100 by 100 each, and
        every stored count is at least 1. */
    ghost predicate Valid()
      reads this, Buffers(images)
    {
      && IsAtlas(atlas)
      && images.Keys == Cs.Keys
      && GlyphBuffers(images)
      && GlyphsIn(images) == GlyphsOf(atlas)
      && Positive(m)
    }

    /** Package initialisation: `m` and `images` start empty, then `init`
        loads the glyphs from the atlas `src`. */
    constructor (src: array2<Pixel>)
      requires src.Length0 >= AtlasWidth && src.Length1 >= AtlasHeight
      ensures Valid()
      ensures m == map[] && atlas == Snapshot(src)
      ensures forall c :: c in images ==> fresh(images[c])
      ensures forall c, d :: c in images && d in images && c != d ==> images[c] != images[d]
    {
      m := map[];
      images := map[];
      new;
      Init(src);
    }

    /** `init`: for every character of the table, in no particular order,
        cut its glyph out of `src` into a fresh buffer and store it. */
    method Init(src: array2<Pixel>)
      requires src.Length0 >= AtlasWidth && src.Length1 >= AtlasHeight
      requires images == map[]
      modifies this
      ensures m == old(m) && atlas == Snapshot(src)
      ensures images.Keys == Cs.Keys && GlyphBuffers(images)
      ensures forall c :: c in images ==> fresh(images[c])
      ensures forall c, d :: c in images && d in images && c != d ==> images[c] != images[d]
      ensures IsAtlas(atlas) && GlyphsIn(images) == GlyphsOf(atlas)
    {
      images := LoadGlyphs(src);
      atlas := Snapshot(src);
    }

    /** `counter`: a GET increments the count of the URL and returns the
        image of its decimal text; a DELETE removes the count; any other
        method does nothing. */
    method Counter(r: Request) returns (body: Option<array2<Pixel>>)
      requires Valid()
      modifies this
      ensures Valid() && images == old(images) && atlas == old(atlas)
      ensures m == CounterStep(old(m), r.verb, r.url)
      ensures body.Some? <==> r.verb == "GET"
      ensures body.Some? ==>
        && fresh(body.value)
        && body.value.Length0 == GlyphSize * |Decimal(CountOf(m, r.url))|
        && body.value.Length1 == GlyphSize
        && Drawable(GlyphsOf(atlas), Decimal(CountOf(m, r.url)))
        && Snapshot(body.value) == Render(GlyphsOf(atlas), Decimal(CountOf(m, r.url)))
    {
      var url := r.url;
      if r.verb == "GET" {
        m := m[url := CountOf(m, url) + 1];
        var value := Decimal(m[url]);
        DecimalDrawable(m[url]);
        var img := CreateConcatenatedImage(images, value);
        body := Some(img);
      } else if r.verb == "DELETE" {
        m := m - {url};
        body := None;
      } else {
        body := None;
      }
    }

    /** `ServeHTTP`: only paths under the counter prefix reach `Counter`. */
    method ServeHTTP(r: Request) returns (body: Option<array2<Pixel>>)
      requires Valid()
      modifies this
      ensures Valid() && images == old(images) && atlas == old(atlas)
      ensures m == Serve(old(m), r)
      ensures body.Some? <==> IsCounterPath(r.path) && r.verb == "GET"
      ensures body.Some? ==>
        && fresh(body.value)
        && body.value.Length0 == GlyphSize * |Decimal(CountOf(m, r.url))|
        && body.value.Length1 == GlyphSize
        && Drawable(GlyphsOf(atlas), Decimal(CountOf(m, r.url)))
        && Snapshot(body.value) == Render(GlyphsOf(atlas), Decimal(CountOf(m, r.url)))
    {
      if IsCounterPath(r.path) {
        body := Counter(r);
      } else {
        body := None;
      }
    }
  }
}
