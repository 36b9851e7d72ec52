/*
 * The label compositor of lglib (lg.c) as values: a label, the colour it
 * gives one pixel (lg_get_string_pixel), the colour of a pixel with every
 * label drawn over the background (lg_get_pixel), and the rectangle a
 * label asks the display to repaint. Hit is an independent, geometric
 * reading of "the label's text covers this pixel"; the lemmas connect the
 * source's arithmetic to it.
 */
module LgLabel {
  import opened Arithmetic

  type uint8 = b: int | 0 <= b < 0x100
  type uint16 = v: int | 0 <= v < 0x1_0000

  /** LG_MAX_STRINGS. */
  const LabelCount := 10

  /** Glyphs are 8 by 8 font pixels; a label draws each as a size by size block. */
  const GlyphSize := 8

  /** The font table: row `row` of the glyph of character `c`, bit 7 being the leftmost column. */
  type Font = (uint8, int) -> bv8

  /**
   * One entry of the label table. `text` holds the characters before the
   * terminating NUL, so its length is the `length` field of the source;
   * `visible` keeps the char the caller passed, and counts as true when
   * it is not zero.
   */
  datatype Label = Label(
    text: seq<uint8>, visible: uint8, inUse: bool, size: uint8, spacing: uint8,
    x: uint16, y: uint16, color: bv32)

  /** strlen: the number of characters before the first NUL, or all of them when there is none. */
  function StrLen(s: seq<uint8>): (n: nat)
    ensures n <= |s|
    ensures forall i :: 0 <= i < n ==> s[i] != 0
    ensures n < |s| ==> s[n] == 0
  {
    if s == [] || s[0] == 0 then 0 else 1 + StrLen(s[1..])
  }

  /** The C string a buffer holds: its characters before the first NUL. */
  function CString(s: seq<uint8>): (str: seq<uint8>)
    ensures str <= s && |str| == StrLen(s)
    ensures 0 !in str
  {
    s[..StrLen(s)]
  }

  /** A buffer with no NUL is a C string of its own length. */
  lemma {:induction false} NoNulKeptWhole(s: seq<uint8>)
    requires 0 !in s
    ensures StrLen(s) == |s| && CString(s) == s
  {
    if s != [] {
      NoNulKeptWhole(s[1..]);
    }
  }

  /** Whatever follows the first NUL is not part of the string. */
  lemma {:induction false} NulEndsString(s: seq<uint8>, rest: seq<uint8>)
    requires 0 !in s
    ensures StrLen(s + [0] + rest) == |s| && CString(s + [0] + rest) == s
  {
    if s != [] {
      assert (s + [0] + rest)[1..] == s[1..] + [0] + rest;
      NulEndsString(s[1..], rest);
    }
  }

  /** A slot of the zero-initialised table, before lg_label_add fills it. */
  const Unused := Label([], 0, false, 0, 0, 0, 0, 0)

  /** A call of the display's paint callback or of its paint_partial callback. */
  datatype Request = FullRepaint | PartialRepaint(x: uint16, y: uint16, width: uint16, height: uint16)

  /** The width of one character cell: the glyph and the spacing columns, each size pixels wide. */
  function Pitch(l: Label): (p: int)
    ensures p == GlyphSize * l.size + l.spacing * l.size
    ensures p >= GlyphSize * l.size
  {
    MulMonotone(0, l.spacing, l.size);
    (GlyphSize + l.spacing) * l.size
  }

  /** Pixel (x, y) lies in the band of rows of the label, at or right of its left edge. */
  predicate InBand(l: Label, x: int, y: int)
  {
    l.x <= x && l.y <= y < l.y + GlyphSize * l.size
  }

  /** str_pos: the character cell under column x. */
  function CharIndex(l: Label, x: int): (i: int)
    requires InBand(l, x, l.y)
    ensures 0 <= i && i * Pitch(l) <= x - l.x
  {
    DivAtLeast(x - l.x, Pitch(l), 0);
    assert (x - l.x) == ((x - l.x) / Pitch(l)) * Pitch(l) + (x - l.x) % Pitch(l);
    (x - l.x) / Pitch(l)
  }

  /** char_x: the glyph column under x within its cell; 8 and above are spacing columns. */
  function Column(l: Label, x: int): (cx: int)
    requires InBand(l, x, l.y)
    ensures 0 <= cx
  {
    DivAtLeast(x - l.x - CharIndex(l, x) * Pitch(l), l.size, 0);
    (x - l.x - CharIndex(l, x) * Pitch(l)) / l.size
  }

  /** char_y: the glyph row under y. */
  function GlyphRow(l: Label, y: int): (cy: int)
    requires InBand(l, l.x, y)
    ensures 0 <= cy < GlyphSize
  {
    DivAtLeast(y - l.y, l.size, 0);
    DivBelow(y - l.y, l.size, GlyphSize);
    (y - l.y) / l.size
  }

  /**
   * The font test of lg_get_string_pixel: bit 7 of the row shifted left by
   * the column. Past the eighth column the shift leaves bit 7 clear; within
   * the glyph it tests the font pixel in that column.
   */
  function ColumnSet(row: bv8, cx: int): (on: bool)
    requires 0 <= cx
    ensures on <==> cx < GlyphSize && GlyphOn(row, cx)
  {
    if cx < GlyphSize then
      ShiftTestIsGlyphOn(row, cx);
      (row << cx) & 0x80 != 0
    else
      false
  }

  /** lg_get_string_pixel: the label's colour where its text draws, the colour below elsewhere. */
  function StringPixel(font: Font, l: Label, x: uint16, y: uint16, background: bv32): (r: bv32)
    ensures r == l.color || r == background
    ensures !InBand(l, x, y) || l.visible == 0 ==> r == background
  {
    if l.visible == 0 then background
    else if x < l.x then background
    else if y < l.y then background
    else if y >= l.y + GlyphSize * l.size then background
    else if CharIndex(l, x) >= |l.text| then background
    else if ColumnSet(font(l.text[CharIndex(l, x)], GlyphRow(l, y)), Column(l, x)) then l.color
    else background
  }

  /** Pixel (x, y) lies in the block that draws font pixel (cx, cy) of character i. */
  predicate InBlock(l: Label, i: int, cx: int, cy: int, x: int, y: int)
  {
    && l.x + i * Pitch(l) + cx * l.size <= x < l.x + i * Pitch(l) + (cx + 1) * l.size
    && l.y + cy * l.size <= y < l.y + (cy + 1) * l.size
  }

  /** The glyph row draws column cx: bit 7 - cx, counting from the least significant bit. */
  predicate GlyphOn(row: bv8, cx: int)
    requires 0 <= cx < GlyphSize
  {
    (row >> (7 - cx)) & 1 == 1
  }

  /** The visible label draws pixel (x, y): the pixel lies in the block of a font pixel that is on. */
  ghost predicate Hit(font: Font, l: Label, x: int, y: int)
  {
    && l.visible != 0
    && exists i, cx, cy :: 0 <= i < |l.text| && 0 <= cx < GlyphSize && 0 <= cy < GlyphSize
         && InBlock(l, i, cx, cy, x, y) && GlyphOn(font(l.text[i], cy), cx)
  }

  /** Shifting left then testing bit 7 tests bit 7 - cx. */
  lemma ShiftTestIsGlyphOn(row: bv8, cx: int)
    requires 0 <= cx < GlyphSize
    ensures ((row << cx) & 0x80 != 0) == GlyphOn(row, cx)
  {
    if cx == 0 {
    } else if cx == 1 {
    } else if cx == 2 {
    } else if cx == 3 {
    } else if cx == 4 {
    } else if cx == 5 {
    } else if cx == 6 {
    } else {
    }
  }

  /** Each pixel lies in at most one block: the source's quotients recover its cell, column and row. */
  lemma BlockPosition(l: Label, i: int, cx: int, cy: int, x: int, y: int)
    requires 0 <= i && 0 <= cx < GlyphSize && 0 <= cy < GlyphSize && InBlock(l, i, cx, cy, x, y)
    ensures InBand(l, x, y)
    ensures CharIndex(l, x) == i && Column(l, x) == cx && GlyphRow(l, y) == cy
  {
    var s, p := l.size, Pitch(l);
    assert (cx + 1) * s == cx * s + s;
    assert (cy + 1) * s == cy * s + s;
    MulMonotone(0, i, p);
    MulMonotone(cx + 1, GlyphSize, s);
    MulMonotone(cy + 1, GlyphSize, s);
    var a, b := x - l.x - i * p - cx * s, y - l.y - cy * s;
    DivModUnique(x - l.x, p, i, cx * s + a);
    DivModUnique(cx * s + a, s, cx, a);
    DivModUnique(y - l.y, s, cy, b);
  }

  /** Pixels drawn by the text lie where the source's arithmetic reaches the font test, and it passes. */
  lemma HitReachesFont(font: Font, l: Label, x: int, y: int)
    ensures Hit(font, l, x, y) ==>
      && l.visible != 0 && InBand(l, x, y) && CharIndex(l, x) < |l.text| && Column(l, x) < GlyphSize
      && GlyphOn(font(l.text[CharIndex(l, x)], GlyphRow(l, y)), Column(l, x))
  {
    if Hit(font, l, x, y) {
      var i, cx, cy :| 0 <= i < |l.text| && 0 <= cx < GlyphSize && 0 <= cy < GlyphSize
        && InBlock(l, i, cx, cy, x, y) && GlyphOn(font(l.text[i], cy), cx);
      BlockPosition(l, i, cx, cy, x, y);
    }
  }

  /** Conversely, a pixel that passes the font test is drawn by the text. */
  lemma FontTestHits(font: Font, l: Label, x: int, y: int)
    ensures
      (&& l.visible != 0 && InBand(l, x, y) && CharIndex(l, x) < |l.text| && Column(l, x) < GlyphSize
       && GlyphOn(font(l.text[CharIndex(l, x)], GlyphRow(l, y)), Column(l, x)))
      ==> Hit(font, l, x, y)
  {
    if l.visible != 0 && InBand(l, x, y) && CharIndex(l, x) < |l.text| && Column(l, x) < GlyphSize {
      CellOfPixel(l, x, y);
    }
  }

  /** A pixel in the label's band lies in the block of the cell, column and row the source computes. */
  lemma CellOfPixel(l: Label, x: int, y: int)
    requires InBand(l, x, y)
    ensures InBlock(l, CharIndex(l, x), Column(l, x), GlyphRow(l, y), x, y)
  {
    var i, cx, cy := CharIndex(l, x), Column(l, x), GlyphRow(l, y);
    var s, ip := l.size, i * Pitch(l);
    var r := x - l.x - ip;
    QuotientBlock(r, s);
    QuotientBlock(y - l.y, s);
  }

  /** The block of size s that a non-negative offset falls in, by its quotient. */
  lemma QuotientBlock(a: int, s: int)
    requires 0 <= a && 0 < s
    ensures (a / s) * s <= a < (a / s + 1) * s
  {
    assert a == (a / s) * s + a % s;
    assert (a / s + 1) * s == (a / s) * s + s;
  }

  /** lg_get_string_pixel gives the label's colour exactly on the pixels its text draws. */
  lemma StringPixelIsHit(font: Font, l: Label, x: uint16, y: uint16, background: bv32)
    ensures StringPixel(font, l, x, y, background) == if Hit(font, l, x, y) then l.color else background
  {
    HitReachesFont(font, l, x, y);
    FontTestHits(font, l, x, y);
  }

  /** The spacing columns after each glyph always show the colour below. */
  lemma SpacingShowsBackground(font: Font, l: Label, x: uint16, y: uint16, background: bv32)
    requires InBand(l, x, y) && (x - l.x) % Pitch(l) >= GlyphSize * l.size
    ensures StringPixel(font, l, x, y, background) == background
  {
    var p := Pitch(l);
    assert x - l.x == CharIndex(l, x) * p + (x - l.x) % p;
    DivAtLeast((x - l.x) % p, l.size, GlyphSize);
  }

  /** The colours of some labels, in index order. */
  function Colors(labels: seq<Label>): (cs: seq<bv32>)
    ensures |cs| == |labels| && forall i :: 0 <= i < |labels| ==> cs[i] == labels[i].color
  {
    if labels == [] then [] else Colors(labels[..|labels| - 1]) + [labels[|labels| - 1].color]
  }

  /** lg_get_pixel: start from the background and let each visible label, in index order, draw over it. */
  function Layer(font: Font, labels: seq<Label>, x: uint16, y: uint16, background: bv32): (c: bv32)
    ensures c == background || c in Colors(labels)
  {
    if labels == [] then background
    else
      var below := Layer(font, labels[..|labels| - 1], x, y, background);
      var top := labels[|labels| - 1];
      if top.visible != 0 then StringPixel(font, top, x, y, below) else below
  }

  /** The highest index whose label draws (x, y), or -1 when no label does. */
  ghost function TopHit(font: Font, labels: seq<Label>, x: int, y: int): (k: int)
    ensures -1 <= k < |labels|
    ensures k >= 0 ==> Hit(font, labels[k], x, y)
    ensures forall j :: k < j < |labels| ==> !Hit(font, labels[j], x, y)
  {
    if labels == [] then -1
    else if Hit(font, labels[|labels| - 1], x, y) then |labels| - 1
    else TopHit(font, labels[..|labels| - 1], x, y)
  }

  /**
   * A pixel no visible label draws shows the background; otherwise it
   * shows the colour of the highest-index label that draws it.
   */
  lemma {:induction false} LayerIsTopHit(font: Font, labels: seq<Label>, x: uint16, y: uint16, background: bv32)
    ensures Layer(font, labels, x, y, background) ==
      if TopHit(font, labels, x, y) == -1 then background else labels[TopHit(font, labels, x, y)].color
  {
    if labels != [] {
      var n := |labels| - 1;
      LayerIsTopHit(font, labels[..n], x, y, background);
      StringPixelIsHit(font, labels[n], x, y, Layer(font, labels[..n], x, y, background));
    }
  }

  /** Replacing a label changes only pixels that the old or the new label draws. */
  lemma {:induction false} LayerChangeIsLocal(font: Font, labels: seq<Label>, i: int, l: Label, x: uint16, y: uint16, background: bv32)
    requires 0 <= i < |labels| && !Hit(font, labels[i], x, y) && !Hit(font, l, x, y)
    ensures Layer(font, labels[i := l], x, y, background) == Layer(font, labels, x, y, background)
  {
    var n := |labels| - 1;
    if i == n {
      TopChangeIsLocal(font, labels, l, x, y, background);
    } else {
      var after := labels[i := l];
      assert after[..n] == labels[..n][i := l] && after[n] == labels[n];
      LayerChangeIsLocal(font, labels[..n], i, l, x, y, background);
      assert Layer(font, after[..n], x, y, background) == Layer(font, labels[..n], x, y, background);
    }
  }

  /** Replacing the top label by another, where neither draws, leaves the pixel unchanged. */
  lemma TopChangeIsLocal(font: Font, labels: seq<Label>, l: Label, x: uint16, y: uint16, background: bv32)
    requires labels != [] && !Hit(font, labels[|labels| - 1], x, y) && !Hit(font, l, x, y)
    ensures Layer(font, labels[|labels| - 1 := l], x, y, background) == Layer(font, labels, x, y, background)
  {
    var n := |labels| - 1;
    var below := Layer(font, labels[..n], x, y, background);
    assert labels[n := l][..n] == labels[..n];
    StringPixelIsHit(font, labels[n], x, y, below);
    StringPixelIsHit(font, l, x, y, below);
  }

  /**
   * The rectangle a label asks to repaint when its text is taken as
   * `length` characters long; the width is truncated to the callback's
   * 16-bit argument.
   */
  function Repaint(l: Label, length: nat): (r: Request)
    ensures r.PartialRepaint? && r.x == l.x && r.y == l.y && r.height == GlyphSize * l.size
    ensures r.width == (length * Pitch(l)) % 0x1_0000
  {
    PartialRepaint(l.x, l.y, (length * Pitch(l)) % 0x1_0000, GlyphSize * l.size)
  }

  predicate Inside(r: Request, x: int, y: int)
  {
    r.PartialRepaint? && r.x <= x < r.x + r.width && r.y <= y < r.y + r.height
  }

  /**
   * Every pixel a label draws lies in its repaint rectangle for any length
   * at least that of its text, as long as the width fits in 16 bits.
   */
  lemma HitInsideRepaint(font: Font, l: Label, length: nat, x: int, y: int)
    requires |l.text| <= length && length * Pitch(l) < 0x1_0000
    ensures Hit(font, l, x, y) ==> Inside(Repaint(l, length), x, y)
  {
    if Hit(font, l, x, y) {
      var i, cx, cy :| 0 <= i < |l.text| && 0 <= cx < GlyphSize && 0 <= cy < GlyphSize
        && InBlock(l, i, cx, cy, x, y) && GlyphOn(font(l.text[i], cy), cx);
      BlockInsideRepaint(l, length, i, cx, cy, x, y);
    }
  }

  lemma BlockInsideRepaint(l: Label, length: nat, i: int, cx: int, cy: int, x: int, y: int)
    requires 0 <= i < length && 0 <= cx < GlyphSize && 0 <= cy < GlyphSize && InBlock(l, i, cx, cy, x, y)
    requires length * Pitch(l) < 0x1_0000
    ensures Inside(Repaint(l, length), x, y)
  {
    var s, p := l.size, Pitch(l);
    MulMonotone(0, i, p);
    MulMonotone(0, cx, s);
    MulMonotone(0, cy, s);
    MulMonotone(cx + 1, GlyphSize, s);
    MulMonotone(cy + 1, GlyphSize, s);
    MulMonotone(i + 1, length, p);
    assert (i + 1) * p == i * p + p;
    assert (length * p) % 0x1_0000 == length * p;
  }

  /** The width of the rectangle for `length` characters fits in the callback's 16-bit argument. */
  predicate WidthFits(l: Label, length: nat)
  {
    length * Pitch(l) < 0x1_0000
  }

  /** Every pixel whose colour differs between the two tables lies in the requested rectangle. */
  ghost predicate Covers(font: Font, r: Request, before: seq<Label>, after: seq<Label>, background: bv32)
  {
    forall x: uint16, y: uint16 :: Layer(font, after, x, y, background) != Layer(font, before, x, y, background) ==>
      Inside(r, x, y)
  }

  /**
   * Replacing a label by one at the same place and of the same size and
   * spacing changes only pixels inside the repaint rectangle for the longer
   * of the two texts, when its width fits in 16 bits.
   */
  lemma RepaintCoversChange(font: Font, labels: seq<Label>, i: int, l: Label, background: bv32)
    requires 0 <= i < |labels|
    requires l.x == labels[i].x && l.y == labels[i].y && l.size == labels[i].size && l.spacing == labels[i].spacing
    requires WidthFits(l, Max(|labels[i].text|, |l.text|))
    ensures Covers(font, Repaint(labels[i], Max(|labels[i].text|, |l.text|)), labels, labels[i := l], background)
  {
    var length := Max(|labels[i].text|, |l.text|);
    forall x: uint16, y: uint16 | Layer(font, labels[i := l], x, y, background) != Layer(font, labels, x, y, background)
      ensures Inside(Repaint(labels[i], length), x, y)
    {
      HitInsideRepaint(font, labels[i], length, x, y);
      HitInsideRepaint(font, l, length, x, y);
      if !Hit(font, labels[i], x, y) && !Hit(font, l, x, y) {
        LayerChangeIsLocal(font, labels, i, l, x, y, background);
      }
    }
  }

  /**
   * The table invariant lg.c keeps: a slot not in use still has size 0,
   * since the size is written only where the slot is taken.
   */
  predicate UnusedAreEmpty(labels: seq<Label>)
  {
    forall j :: 0 <= j < |labels| && !labels[j].inUse ==> labels[j].size == 0
  }

  /**
   * Filling a slot whose label has size 0 (so draws nothing) changes only
   * pixels inside the repaint rectangle of the new label, when its width
   * fits in 16 bits.
   */
  lemma AddCoversChange(font: Font, labels: seq<Label>, i: int, l: Label, background: bv32)
    requires 0 <= i < |labels| && labels[i].size == 0
    requires WidthFits(l, |l.text|)
    ensures Covers(font, Repaint(l, |l.text|), labels, labels[i := l], background)
  {
    forall x: uint16, y: uint16 | Layer(font, labels[i := l], x, y, background) != Layer(font, labels, x, y, background)
      ensures Inside(Repaint(l, |l.text|), x, y)
    {
      HitInsideRepaint(font, l, |l.text|, x, y);
      assert !Hit(font, labels[i], x, y);
      if !Hit(font, l, x, y) {
        LayerChangeIsLocal(font, labels, i, l, x, y, background);
      }
    }
  }

  function Max(a: int, b: int): int
  {
    if a < b then b else a
  }

  /** The slot lg_label_add takes: the lowest index not in use, or -1 when every slot is. */
  function FirstFree(labels: seq<Label>): (k: int)
    ensures -1 <= k < |labels|
    ensures k >= 0 ==> !labels[k].inUse && forall j :: 0 <= j < k ==> labels[j].inUse
    ensures k == -1 ==> forall j :: 0 <= j < |labels| ==> labels[j].inUse
  {
    if labels == [] then -1
    else if !labels[0].inUse then 0
    else
      var k := FirstFree(labels[1..]);
      if k == -1 then -1 else k + 1
  }
}
