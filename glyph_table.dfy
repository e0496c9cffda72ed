/** The glyph table `cs`: for each character the counter can draw, the
    top-left corner of its 100 by 100 cell in the sprite atlas. */
module GlyphTable {
  import opened Raster

  /** Every glyph is a 100 by 100 cell. */
  const GlyphSize: nat := 100

  /** The atlas must be at least this wide and this high to hold every cell. */
  const AtlasWidth: nat := 300
  const AtlasHeight: nat := 400

  /** `cs`: the digits in a 3-column grid, `1`-`9` row by row from the top
      left, then `,`, `0`, `.` on the fourth row. */
  const Cs: map<byte, Point> := map[
    '0' as byte := Point(100, 300),
    '1' as byte := Point(0, 0),
    '2' as byte := Point(100, 0),
    '3' as byte := Point(200, 0),
    '4' as byte := Point(0, 100),
    '5' as byte := Point(100, 100),
    '6' as byte := Point(200, 100),
    '7' as byte := Point(0, 200),
    '8' as byte := Point(100, 200),
    '9' as byte := Point(200, 200),
    '.' as byte := Point(200, 300),
    ',' as byte := Point(0, 300)
  ]

  /** An ASCII decimal digit. */
  predicate IsDigit(c: byte) {
    '0' as byte <= c <= '9' as byte
  }

  /** `cs[c]`: the top-left corner of `c`'s cell, which lies inside a 300 by
      400 atlas. */
  function Offset(c: byte): (p: Point)
    requires c in Cs
    ensures p == Cs[c]
    ensures 0 <= p.x && p.x + GlyphSize <= AtlasWidth
    ensures 0 <= p.y && p.y + GlyphSize <= AtlasHeight
  {
    OffsetsOnGrid();
    Cs[c]
  }

  /** The atlas cell of character `c`. */
  function Cell(c: byte): (r: Rectangle)
    requires c in Cs
    ensures r.max.x - r.min.x == GlyphSize && r.max.y - r.min.y == GlyphSize
    ensures r.min == Cs[c]
  {
    Rectangle(Cs[c], Point(Cs[c].x + GlyphSize, Cs[c].y + GlyphSize))
  }

  /** Two rectangles share at least one pixel. */
  predicate Overlap(p: Rectangle, q: Rectangle) {
    p.min.x < q.max.x && q.min.x < p.max.x && p.min.y < q.max.y && q.min.y < p.max.y
  }

  /** The table covers exactly the ten digits, `.` and `,`. */
  lemma TableDomain()
    ensures forall c: byte :: c in Cs <==> IsDigit(c) || c == '.' as byte || c == ',' as byte
  {
  }

  /** The table has twelve entries. */
  lemma TableSize()
    ensures |Cs| == 12
  {
    KeysAre();
    KeyCount(Cs.Keys);
  }

  /** Twelve distinct byte values make a set of twelve. */
  lemma KeyCount(keys: set<byte>)
    requires keys == {48, 49, 50, 51, 52, 53, 54, 55, 56, 57, 46, 44}
    ensures |keys| == 12
  {
    assert |{48 as byte}| == 1;
    assert |{48 as byte, 49}| == 2;
    assert |{48 as byte, 49, 50}| == 3;
    assert |{48 as byte, 49, 50, 51}| == 4;
    assert |{48 as byte, 49, 50, 51, 52}| == 5;
    assert |{48 as byte, 49, 50, 51, 52, 53}| == 6;
    assert |{48 as byte, 49, 50, 51, 52, 53, 54}| == 7;
    assert |{48 as byte, 49, 50, 51, 52, 53, 54, 55}| == 8;
    assert |{48 as byte, 49, 50, 51, 52, 53, 54, 55, 56}| == 9;
    assert |{48 as byte, 49, 50, 51, 52, 53, 54, 55, 56, 57}| == 10;
    assert |{48 as byte, 49, 50, 51, 52, 53, 54, 55, 56, 57, 46}| == 11;
    assert |{48 as byte, 49, 50, 51, 52, 53, 54, 55, 56, 57, 46, 44}| == 12;
  }

  /** The keys of the table as byte values. */
  lemma KeysAre()
    ensures Cs.Keys == {48, 49, 50, 51, 52, 53, 54, 55, 56, 57, 46, 44}
  {
  }

  /** Every offset is a corner of the 3 by 4 grid of 100-pixel cells, and the
      cell fits inside a 300 by 400 atlas. */
  lemma OffsetsOnGrid()
    ensures forall c :: c in Cs ==>
      Cs[c].x in {0, 100, 200} && Cs[c].y in {0, 100, 200, 300}
    ensures forall c :: c in Cs ==>
      0 <= Cs[c].x && Cs[c].x + GlyphSize <= AtlasWidth &&
      0 <= Cs[c].y && Cs[c].y + GlyphSize <= AtlasHeight
  {
  }

  /** Distinct characters have distinct offsets, so their cells never share
      a pixel. */
  lemma CellsDisjoint()
    ensures forall c, d :: c in Cs && d in Cs && c != d ==> Cs[c] != Cs[d]
    ensures forall c, d :: c in Cs && d in Cs && c != d ==> !Overlap(Cell(c), Cell(d))
  {
  }

  /** Every corner of the 3 by 4 grid is the offset of some character: the
      table uses the whole atlas. */
  lemma GridCovered()
    ensures forall p: Point :: p.x in {0, 100, 200} && p.y in {0, 100, 200, 300} ==>
      exists c :: c in Cs && Cs[c] == p
  {
    forall p: Point | p.x in {0, 100, 200} && p.y in {0, 100, 200, 300}
      ensures exists c :: c in Cs && Cs[c] == p
    {
      // digits 1-9 fill the first three rows in reading order
      var c: byte :=
        if p.y < 300 then ('1' as byte) + (3 * (p.y / 100) + p.x / 100) as byte
        else if p.x == 0 then ',' as byte else if p.x == 100 then '0' as byte else '.' as byte;
      assert c in Cs && Cs[c] == p;
    }
  }
}
