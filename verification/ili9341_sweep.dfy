/*
 * The paint state of the ILI9341 driver as a value: the painting flag, the
 * sweep cursor, the active bounds, the byte phase and the one-pixel colour
 * cache (ili9341/ili9341.c:39-46, 355-356), with the per-tick transition of
 * ili9341_do_processing while a paint is active (ili9341/ili9341.c:358-405).
 * The driver class in Ili9341 keeps the same fields and is specified against
 * the functions here; the lemmas below are about whole paints.
 */
module Ili9341Sweep {
  import opened Ili9341Protocol
  import opened Arithmetic

  const ScreenWidth := 320
  const ScreenHeight := 240

  /** A panel coordinate. */
  datatype Pos = Pos(x: int, y: int)

  /** A requested repaint rectangle (x, y, width, height). */
  datatype Region = Region(x: int, y: int, width: int, height: int)

  /**
   * The arguments ili9341_paint_partial works with: int16_t values that are
   * not negative, and a rectangle that is not empty.
   */
  predicate WellFormed(r: Region)
  {
    0 <= r.x < 0x8000 && 0 <= r.y < 0x8000 && 0 < r.width < 0x8000 && 0 < r.height < 0x8000
  }

  /** The region ili9341_paint queues while busy. */
  const FullScreen := Region(0, 0, ScreenWidth, ScreenHeight)

  datatype SweepState = SweepState(
    painting: bool,
    x: int, y: int,
    xStart: int, xEnd: int, yStart: int, yEnd: int,
    currentByte: int,
    pixelFetched: bool, pixelColor: bv32)

  /**
   * What holds between ticks: the phase is 0, 1 or 2; an idle driver is at
   * phase 0 with no pixel cached (the only place that clears painting runs
   * right after both are reset); a cached colour is a masked one; a painting
   * cursor is on a row inside the bounds.
   */
  predicate Inv(s: SweepState)
  {
    && 0 <= s.currentByte < 3
    && (s.pixelFetched ==> Masked(s.pixelColor))
    && (!s.painting ==> s.currentByte == 0 && !s.pixelFetched)
    && (s.painting ==> s.y < s.yEnd)
  }

  /** A paint that is about to send the first byte of the pixel under its cursor. */
  predicate AtPixelStart(s: SweepState)
  {
    s.painting && s.currentByte == 0 && !s.pixelFetched && s.y < s.yEnd
  }

  /** The inclusive corners of a region as 16-bit coordinates: (x, y) and (x_end - 1, y_end - 1). */
  function Corners(r: Region): Window
    requires WellFormed(r)
  {
    Window(r.x as bv16, r.y as bv16, (r.x + r.width - 1) as bv16, (r.y + r.height - 1) as bv16)
  }

  /** The address window sent when a region starts: set_address(x, y, x_end - 1, y_end - 1). */
  function AddressWindow(r: Region): seq<Item>
    requires WellFormed(r)
  {
    var w := Corners(r);
    SetAddress(w.x1, w.y1, w.x2, w.y2)
  }

  /** The controller reads that window back as the region's inclusive corners. */
  lemma AddressWindowSelectsRegion(r: Region)
    requires WellFormed(r)
    ensures DecodeAddress(AddressWindow(r)) == Some(Corners(r))
  {
    var w := Corners(r);
    SetAddressRoundTrip(w.x1, w.y1, w.x2, w.y2);
  }

  /** The address window sent by a full paint started while idle: (0, 0)-(319, 239). */
  function FullScreenWindow(): (items: seq<Item>)
    ensures DecodeAddress(items) == Some(Window(0, 0, 319, 239))
  {
    SetAddressRoundTrip(0, 0, 319, 239);
    SetAddress(0, 0, 319, 239)
  }

  /**
   * The state after ili9341_paint_partial starts region r while idle
   * (ili9341/ili9341.c:262-268): the cursor on the region's top-left pixel,
   * ready to send its first byte.
   */
  function StartPartial(s: SweepState, r: Region): (t: SweepState)
    requires WellFormed(r)
    ensures Inv(s) && !s.painting ==> Inv(t) && AtPixelStart(t)
    ensures Pos(t.x, t.y) == Pos(r.x, r.y) && Pos(t.xStart, t.yStart) == Pos(r.x, r.y)
    ensures t.xEnd == r.x + r.width && t.yEnd == r.y + r.height
    ensures InRect(Pos(t.x, t.y), t.xStart, t.xEnd, t.yStart, t.yEnd)
  {
    s.(painting := true, x := r.x, y := r.y, xStart := r.x, yStart := r.y,
       xEnd := r.x + r.width, yEnd := r.y + r.height)
  }

  /**
   * The state after ili9341_paint starts while idle, as written
   * (ili9341/ili9341.c:199-207): the cursor at the origin and the bounds at
   * the panel's size, but x_start and y_start keep their old values.
   */
  function StartFull(s: SweepState): (t: SweepState)
    ensures Inv(s) && !s.painting ==> Inv(t) && AtPixelStart(t)
    ensures Pos(t.x, t.y) == Pos(0, 0) && t.xEnd == ScreenWidth && t.yEnd == ScreenHeight
    ensures t.xStart == s.xStart && t.yStart == s.yStart
  {
    s.(painting := true, x := 0, y := 0, xEnd := ScreenWidth, yEnd := ScreenHeight, currentByte := 0)
  }

  /**
   * StartFull with the sweep's left and top edges reset as well, which is
   * what a full paint needs: from an idle state it is the start of the
   * whole panel as a region.
   */
  function StartFullFixed(s: SweepState): (t: SweepState)
    ensures Inv(s) && !s.painting ==> Inv(t) && AtPixelStart(t) && t == StartPartial(s, FullScreen)
  {
    StartFull(s).(xStart := 0, yStart := 0)
  }

  /**
   * The cursor step after the third byte of a pixel (ili9341/ili9341.c:392-402):
   * the paint moves one pixel along the cursor walk Trace, and it stays on
   * exactly while the cursor is on a row inside the bounds.
   */
  function Advance(s: SweepState): (t: SweepState)
    ensures s.painting && s.y < s.yEnd ==>
      && (t.painting <==> t.y < t.yEnd)
      && SweepTrace(s) == [Pos(s.x, s.y)] + (if t.painting then SweepTrace(t) else [])
  {
    if s.x + 1 >= s.xEnd then
      s.(x := s.xStart, y := s.y + 1, painting := if s.y + 1 >= s.yEnd then false else s.painting)
    else
      s.(x := s.x + 1)
  }

  /** The colour the graphics library gives for (x, y), with the mask applied. */
  function MaskedPixel(pixel: (int, int) -> bv32, x: int, y: int): (c: bv32)
    ensures Masked(c)
  {
    MaskIsMasked(pixel(x, y));
    pixel(x, y) & PixelMask
  }

  /** Fetch and mask the pixel under the cursor unless it is already cached. */
  function Fetch(s: SweepState, pixel: (int, int) -> bv32): (t: SweepState)
    requires Inv(s)
    ensures t.pixelFetched && Masked(t.pixelColor)
    ensures s.pixelFetched ==> t == s
    ensures !s.pixelFetched ==> t.pixelColor == MaskedPixel(pixel, s.x, s.y)
    ensures t == s.(pixelFetched := true, pixelColor := t.pixelColor)
  {
    if s.pixelFetched then s
    else s.(pixelColor := MaskedPixel(pixel, s.x, s.y), pixelFetched := true)
  }

  /**
   * One call of ili9341_do_processing while painting: the new state and the
   * data bytes written to the link. `ready` is what spi_ready answers.
   */
  function PaintTick(s: SweepState, ready: bool, pixel: (int, int) -> bv32): (r: (SweepState, seq<bv8>))
    requires s.painting && Inv(s)
    ensures Inv(r.0)
    ensures |r.1| == (if ready then 1 else 0)
  {
    var f := Fetch(s, pixel);
    if !ready then
      (f, [])
    else if f.currentByte == 0 then
      (f.(currentByte := 1), [PixelBytes(f.pixelColor)[0]])
    else if f.currentByte == 1 then
      (f.(currentByte := 2), [PixelBytes(f.pixelColor)[1]])
    else
      (Advance(f.(currentByte := 0, pixelFetched := false)), [PixelBytes(f.pixelColor)[2]])
  }

  /** `n` ticks that all find the link ready; a tick after the paint has ended does nothing here. */
  function Run(s: SweepState, n: nat, pixel: (int, int) -> bv32): (r: (SweepState, seq<bv8>))
    requires Inv(s)
    ensures Inv(r.0)
    decreases n
  {
    if n == 0 || !s.painting then (s, [])
    else
      var step := PaintTick(s, true, pixel);
      var rest := Run(step.0, n - 1, pixel);
      (rest.0, step.1 + rest.1)
  }

  /** The bytes a sequence of pixels is sent as, pixel after pixel, each colour masked. */
  function Stream(ps: seq<Pos>, pixel: (int, int) -> bv32): (bytes: seq<bv8>)
    ensures |bytes| == 3 * |ps|
  {
    if ps == [] then [] else PixelBytes(MaskedPixel(pixel, ps[0].x, ps[0].y)) + Stream(ps[1..], pixel)
  }

  /**
   * The pixels a paint visits from cursor (x, y) on, by the cursor rule of
   * ili9341/ili9341.c:392-402: step right, and past the last column go back
   * to xStart on the next row; the paint ends past the last row.
   */
  function Trace(x: int, y: int, xStart: int, xEnd: int, yEnd: int): (ps: seq<Pos>)
    requires y < yEnd
    decreases yEnd - y, xEnd - x
  {
    [Pos(x, y)] +
      if x + 1 >= xEnd then
        (if y + 1 >= yEnd then [] else Trace(xStart, y + 1, xStart, xEnd, yEnd))
      else
        Trace(x + 1, y, xStart, xEnd, yEnd)
  }

  /** The pixels the paint in state s visits from its cursor on. */
  function SweepTrace(s: SweepState): seq<Pos>
    requires s.y < s.yEnd
  {
    Trace(s.x, s.y, s.xStart, s.xEnd, s.yEnd)
  }

  /** Reference order: the pixels x0..x1-1 of row y, left to right. */
  function Row(x0: int, x1: int, y: int): (ps: seq<Pos>)
    decreases x1 - x0
  {
    if x0 >= x1 then [] else [Pos(x0, y)] + Row(x0 + 1, x1, y)
  }

  /** Reference order: the rectangle [x0, x1) x [y0, y1), top row first, each row left to right. */
  function Rect(x0: int, x1: int, y0: int, y1: int): (ps: seq<Pos>)
    decreases y1 - y0
  {
    if y0 >= y1 then [] else Row(x0, x1, y0) + Rect(x0, x1, y0 + 1, y1)
  }

  /** p comes strictly before q in row-major order. */
  predicate Before(p: Pos, q: Pos)
  {
    p.y < q.y || (p.y == q.y && p.x < q.x)
  }

  /** Strictly increasing in row-major order, hence also free of repetitions. */
  predicate RowMajor(ps: seq<Pos>)
  {
    forall i, j :: 0 <= i < j < |ps| ==> Before(ps[i], ps[j])
  }

  predicate InRect(p: Pos, x0: int, x1: int, y0: int, y1: int)
  {
    x0 <= p.x < x1 && y0 <= p.y < y1
  }

  lemma {:induction false} RowFacts(x0: int, x1: int, y: int)
    requires x0 <= x1
    ensures |Row(x0, x1, y)| == x1 - x0
    ensures forall k :: 0 <= k < x1 - x0 ==> Row(x0, x1, y)[k] == Pos(x0 + k, y)
    decreases x1 - x0
  {
    if x0 < x1 {
      RowFacts(x0 + 1, x1, y);
    }
  }

  /** A row lists exactly the pixels of its one-row rectangle. */
  lemma RowMembers(x0: int, x1: int, y: int)
    requires x0 <= x1
    ensures forall p :: p in Row(x0, x1, y) <==> InRect(p, x0, x1, y, y + 1)
  {
    var row := Row(x0, x1, y);
    RowFacts(x0, x1, y);
    forall p
      ensures p in row <==> InRect(p, x0, x1, y, y + 1)
    {
      if p in row {
        var k :| 0 <= k < |row| && row[k] == p;
      }
      if InRect(p, x0, x1, y, y + 1) {
        assert row[p.x - x0] == p;
      }
    }
  }

  /** A rectangle lists exactly its own pixels, each once, in row-major order, (x1 - x0) * (y1 - y0) of them. */
  lemma {:induction false} RectFacts(x0: int, x1: int, y0: int, y1: int)
    requires x0 <= x1 && y0 <= y1
    ensures |Rect(x0, x1, y0, y1)| == (x1 - x0) * (y1 - y0)
    ensures forall p :: p in Rect(x0, x1, y0, y1) <==> InRect(p, x0, x1, y0, y1)
    ensures RowMajor(Rect(x0, x1, y0, y1))
    decreases y1 - y0
  {
    if y0 < y1 {
      var row, rest := Row(x0, x1, y0), Rect(x0, x1, y0 + 1, y1);
      RowFacts(x0, x1, y0);
      RectFacts(x0, x1, y0 + 1, y1);
      assert (x1 - x0) * (y1 - y0) == (x1 - x0) + (x1 - x0) * (y1 - (y0 + 1));
      forall p
        ensures p in row + rest <==> InRect(p, x0, x1, y0, y1)
      {
        if p in row {
          var k :| 0 <= k < |row| && row[k] == p;
        }
        if InRect(p, x0, x1, y0, y1) && p.y == y0 {
          assert row[p.x - x0] == p;
        }
      }
      forall i, j | 0 <= i < j < |row + rest|
        ensures Before((row + rest)[i], (row + rest)[j])
      {
        if j >= |row| && i < |row| {
          assert rest[j - |row|] in rest;
        }
      }
    }
  }

  /** Pixel i of a rectangle of width w = x1 - x0 is column x0 + i % w of row y0 + i / w. */
  lemma {:induction false} RectIndex(x0: int, x1: int, y0: int, y1: int, i: int)
    requires x0 < x1 && y0 <= y1 && 0 <= i < |Rect(x0, x1, y0, y1)|
    ensures Rect(x0, x1, y0, y1)[i] == Pos(x0 + i % (x1 - x0), y0 + i / (x1 - x0))
    decreases y1 - y0
  {
    var w, row, rest := x1 - x0, Row(x0, x1, y0), Rect(x0, x1, y0 + 1, y1);
    assert Rect(x0, x1, y0, y1) == row + rest;
    RowFacts(x0, x1, y0);
    if i < w {
      assert (row + rest)[i] == row[i];
      DivModUnique(i, w, 0, i);
    } else {
      assert (row + rest)[i] == rest[i - w];
      RectIndex(x0, x1, y0 + 1, y1, i - w);
      DivModStep(i, w);
    }
  }

  lemma DivModStep(i: int, w: int)
    requires 0 < w <= i
    ensures (i - w) % w == i % w && (i - w) / w + 1 == i / w
  {
    var q, r := (i - w) / w, (i - w) % w;
    assert i == w * (q + 1) + r;
    DivModUnique(i, w, q + 1, r);
  }

  /** The walk from (x, y) finishes row y, then covers every later row from xStart. */
  lemma {:induction false} TraceIsRows(x: int, y: int, xStart: int, xEnd: int, yEnd: int)
    requires xStart < xEnd && x < xEnd && y < yEnd
    ensures Trace(x, y, xStart, xEnd, yEnd) == Row(x, xEnd, y) + Rect(xStart, xEnd, y + 1, yEnd)
    decreases yEnd - y, xEnd - x
  {
    if x + 1 >= xEnd {
      assert Row(x, xEnd, y) == [Pos(x, y)];
      if y + 1 < yEnd {
        TraceIsRows(xStart, y + 1, xStart, xEnd, yEnd);
      }
    } else {
      TraceIsRows(x + 1, y, xStart, xEnd, yEnd);
    }
  }

  /** Ticks compose: n + m ticks are n ticks followed by m ticks. */
  lemma {:induction false} RunSplit(s: SweepState, n: nat, m: nat, pixel: (int, int) -> bv32)
    requires Inv(s)
    ensures Run(s, n + m, pixel).0 == Run(Run(s, n, pixel).0, m, pixel).0
    ensures Run(s, n + m, pixel).1 == Run(s, n, pixel).1 + Run(Run(s, n, pixel).0, m, pixel).1
    decreases n
  {
    if n > 0 && s.painting {
      var t := PaintTick(s, true, pixel);
      RunStep(s, n - 1 + m, pixel);
      RunStep(s, n - 1, pixel);
      RunSplit(t.0, n - 1, m, pixel);
      assert Run(s, n, pixel).0 == Run(t.0, n - 1, pixel).0;
      assert Run(s, n + m, pixel).1 == t.1 + (Run(t.0, n - 1, pixel).1 + Run(Run(t.0, n - 1, pixel).0, m, pixel).1);
    }
  }

  /** One ready tick while painting is PaintTick followed by the remaining ticks. */
  lemma RunStep(s: SweepState, m: nat, pixel: (int, int) -> bv32)
    requires Inv(s) && s.painting
    ensures Run(s, m + 1, pixel).0 == Run(PaintTick(s, true, pixel).0, m, pixel).0
    ensures Run(s, m + 1, pixel).1 == PaintTick(s, true, pixel).1 + Run(PaintTick(s, true, pixel).0, m, pixel).1
  {
  }

  /**
   * A ready tick sends exactly one byte, byte number currentByte (high, mid,
   * low) of the cached colour, and moves the phase 0 -> 1 -> 2 -> 0; only
   * the last byte moves the cursor and drops the cached colour.
   */
  lemma ReadyTickSendsPhaseByte(s: SweepState, pixel: (int, int) -> bv32)
    requires Inv(s) && s.painting
    ensures var f := Fetch(s, pixel);
      && PaintTick(s, true, pixel).1 == [PixelBytes(f.pixelColor)[s.currentByte]]
      && PaintTick(s, true, pixel).0 ==
           if s.currentByte < 2 then f.(currentByte := s.currentByte + 1)
           else Advance(f.(currentByte := 0, pixelFetched := false))
  {
  }

  /**
   * A tick that finds the link busy sends nothing and leaves the cursor and
   * the phase alone; it only fills the colour cache. The colour is fetched at
   * most once per pixel: a busy tick then a ready tick act as one ready tick.
   */
  lemma BusyTickOnlyFetches(s: SweepState, pixel: (int, int) -> bv32)
    requires Inv(s) && s.painting
    ensures PaintTick(s, false, pixel).0 == Fetch(s, pixel) && PaintTick(s, false, pixel).1 == []
    ensures PaintTick(PaintTick(s, false, pixel).0, false, pixel).0 == PaintTick(s, false, pixel).0
    ensures PaintTick(PaintTick(s, false, pixel).0, true, pixel).0 == PaintTick(s, true, pixel).0
    ensures PaintTick(PaintTick(s, false, pixel).0, true, pixel).1 == PaintTick(s, true, pixel).1
  {
  }

  /** Bits 0 and 7 of every byte are clear. */
  predicate ClearBytes(bs: seq<bv8>)
  {
    forall i :: 0 <= i < |bs| ==> bs[i] & 0x81 == 0
  }

  /** Whatever the colour source returns, a tick only ever sends bytes with bits 0 and 7 clear. */
  lemma TickBytesClear(s: SweepState, ready: bool, pixel: (int, int) -> bv32)
    requires Inv(s) && s.painting
    ensures ClearBytes(PaintTick(s, ready, pixel).1)
  {
    MaskedBytesClear(Fetch(s, pixel).pixelColor);
  }

  /** So does any run of ready ticks. */
  lemma {:induction false} RunBytesClear(s: SweepState, n: nat, pixel: (int, int) -> bv32)
    requires Inv(s)
    ensures ClearBytes(Run(s, n, pixel).1)
    decreases n
  {
    if n > 0 && s.painting {
      var step := PaintTick(s, true, pixel);
      TickBytesClear(s, true, pixel);
      RunBytesClear(step.0, n - 1, pixel);
      RunStep(s, n - 1, pixel);
    }
  }

  /** Three ready ticks send one pixel, high byte first, and move the cursor on. */
  lemma PixelTakesThreeTicks(s: SweepState, pixel: (int, int) -> bv32)
    requires Inv(s) && AtPixelStart(s)
    ensures var c := MaskedPixel(pixel, s.x, s.y);
      Run(s, 3, pixel).0 == Advance(s.(pixelColor := c)) && Run(s, 3, pixel).1 == PixelBytes(c)
  {
    var c := MaskedPixel(pixel, s.x, s.y);
    var s1 := s.(pixelColor := c, pixelFetched := true, currentByte := 1);
    var s2 := s1.(currentByte := 2);
    FirstTwoBytes(s, pixel);
    LastByteRun(s2, pixel);
    RunStep(s1, 1, pixel);
    RunStep(s, 2, pixel);
  }

  lemma FirstTwoBytes(s: SweepState, pixel: (int, int) -> bv32)
    requires Inv(s) && AtPixelStart(s)
    ensures var c := MaskedPixel(pixel, s.x, s.y);
      var s1 := s.(pixelColor := c, pixelFetched := true, currentByte := 1);
      && PaintTick(s, true, pixel).0 == s1 && PaintTick(s, true, pixel).1 == [HighByte(c)]
      && PaintTick(s1, true, pixel).0 == s1.(currentByte := 2) && PaintTick(s1, true, pixel).1 == [MidByte(c)]
  {
  }

  lemma LastByteRun(s2: SweepState, pixel: (int, int) -> bv32)
    requires Inv(s2) && s2.painting && s2.pixelFetched && s2.currentByte == 2
    ensures var t := Advance(s2.(currentByte := 0, pixelFetched := false));
      Run(s2, 1, pixel).0 == t && Run(s2, 1, pixel).1 == [LowByte(s2.pixelColor)]
  {
    RunStep(s2, 0, pixel);
  }

  /**
   * A paint at the start of a pixel sends, in 3 * |SweepTrace(s)| ready ticks,
   * exactly the masked colours of the pixels it visits and then stops, idle
   * with phase 0 and nothing cached.
   */
  lemma {:induction false} SweepSendsTrace(s: SweepState, pixel: (int, int) -> bv32)
    requires Inv(s) && AtPixelStart(s)
    ensures !Run(s, 3 * |SweepTrace(s)|, pixel).0.painting
    ensures Run(s, 3 * |SweepTrace(s)|, pixel).1 == Stream(SweepTrace(s), pixel)
    decreases s.yEnd - s.y, s.xEnd - s.x
  {
    var c := MaskedPixel(pixel, s.x, s.y);
    var t := Advance(s.(pixelColor := c));
    var ps := SweepTrace(s);
    var rest := ps[1..];
    assert ps == [Pos(s.x, s.y)] + rest;
    assert Stream(ps, pixel) == PixelBytes(c) + Stream(rest, pixel);
    PixelTakesThreeTicks(s, pixel);
    assert Inv(t);
    RunSplit(s, 3, 3 * |rest|, pixel);
    assert 3 * |ps| == 3 + 3 * |rest|;
    if t.painting {
      assert rest == SweepTrace(t);
      SweepSendsTrace(t, pixel);
    } else {
      assert rest == [];
      assert Run(t, 0, pixel).1 == [];
    }
  }

  /** Before those 3 * |SweepTrace(s)| ticks have all happened the paint is still active. */
  lemma {:induction false} PaintingUntilDone(s: SweepState, k: nat, pixel: (int, int) -> bv32)
    requires Inv(s) && AtPixelStart(s)
    requires k < 3 * |SweepTrace(s)|
    ensures Run(s, k, pixel).0.painting
    decreases s.yEnd - s.y, s.xEnd - s.x
  {
    var c := MaskedPixel(pixel, s.x, s.y);
    var t := Advance(s.(pixelColor := c));
    var rest := if s.x + 1 >= s.xEnd then (if s.y + 1 >= s.yEnd then [] else Trace(s.xStart, s.y + 1, s.xStart, s.xEnd, s.yEnd))
                else Trace(s.x + 1, s.y, s.xStart, s.xEnd, s.yEnd);
    assert SweepTrace(s) == [Pos(s.x, s.y)] + rest;
    if k == 0 {
    } else if k < 3 {
      var s1 := PaintTick(s, true, pixel).0;
      var s2 := PaintTick(s1, true, pixel).0;
      assert s1.painting && s2.painting;
      RunSplit(s, 1, k - 1, pixel);
      if k == 2 {
        RunSplit(s1, 1, 0, pixel);
      }
    } else {
      PixelTakesThreeTicks(s, pixel);
      RunSplit(s, 3, k - 3, pixel);
      assert t.painting && rest == SweepTrace(t);
      PaintingUntilDone(t, k - 3, pixel);
    }
  }

  /**
   * ili9341_paint_partial started while idle sweeps exactly the requested
   * rectangle, row by row, in the order of the reference Rect.
   */
  lemma PartialPaintIsRect(s: SweepState, r: Region)
    requires Inv(s) && !s.painting && WellFormed(r)
    ensures Inv(StartPartial(s, r)) && AtPixelStart(StartPartial(s, r))
    ensures SweepTrace(StartPartial(s, r)) == Rect(r.x, r.x + r.width, r.y, r.y + r.height)
  {
    var x0, x1, y0, y1 := r.x, r.x + r.width, r.y, r.y + r.height;
    TraceIsRows(x0, y0, x0, x1, y1);
    assert Rect(x0, x1, y0, y1) == Row(x0, x1, y0) + Rect(x0, x1, y0 + 1, y1);
  }

  /**
   * Hence the sweep of a region visits every pixel of [x, x + width) x
   * [y, y + height) and no other, once each, in row-major order, width *
   * height pixels in all.
   */
  lemma PartialPaintVisitsRegion(s: SweepState, r: Region)
    requires Inv(s) && !s.painting && WellFormed(r)
    ensures Inv(StartPartial(s, r)) && AtPixelStart(StartPartial(s, r))
    ensures |SweepTrace(StartPartial(s, r))| == r.width * r.height
    ensures RowMajor(SweepTrace(StartPartial(s, r)))
    ensures forall p :: p in SweepTrace(StartPartial(s, r)) <==> InRect(p, r.x, r.x + r.width, r.y, r.y + r.height)
  {
    PartialPaintIsRect(s, r);
    RectFacts(r.x, r.x + r.width, r.y, r.y + r.height);
  }

  /** Pixel i of a region's sweep is column x + i % width of row y + i / width. */
  lemma PartialPaintPixelOrder(s: SweepState, r: Region)
    requires Inv(s) && !s.painting && WellFormed(r)
    ensures forall i :: 0 <= i < |SweepTrace(StartPartial(s, r))| ==>
              SweepTrace(StartPartial(s, r))[i] == Pos(r.x + i % r.width, r.y + i / r.width)
  {
    var ps := SweepTrace(StartPartial(s, r));
    PartialPaintIsRect(s, r);
    RectFacts(r.x, r.x + r.width, r.y, r.y + r.height);
    forall i | 0 <= i < |ps|
      ensures ps[i] == Pos(r.x + i % r.width, r.y + i / r.width)
    {
      RectIndex(r.x, r.x + r.width, r.y, r.y + r.height, i);
    }
  }

  /**
   * A region started while idle is sent in exactly 3 * width * height ready
   * ticks: the masked colours of its pixels in row-major order, high byte
   * first; the paint is active before that and over after it.
   */
  lemma PartialPaintSendsRegion(s: SweepState, r: Region, pixel: (int, int) -> bv32)
    requires Inv(s) && !s.painting && WellFormed(r)
    ensures var n := 3 * (r.width * r.height);
      && !Run(StartPartial(s, r), n, pixel).0.painting
      && Run(StartPartial(s, r), n, pixel).1 == Stream(Rect(r.x, r.x + r.width, r.y, r.y + r.height), pixel)
      && forall k: nat :: k < n ==> Run(StartPartial(s, r), k, pixel).0.painting
  {
    var t := StartPartial(s, r);
    PartialPaintIsRect(s, r);
    PartialPaintVisitsRegion(s, r);
    SweepSendsTrace(t, pixel);
    forall k: nat | k < 3 * (r.width * r.height)
      ensures Run(t, k, pixel).0.painting
    {
      PaintingUntilDone(t, k, pixel);
    }
  }

  /**
   * A full paint started while idle right after initialisation (x_start and
   * y_start are still 0) is the partial paint of the whole panel, so it
   * sweeps all 320 x 240 pixels in row-major order.
   */
  lemma FullPaintAfterInit(s: SweepState)
    requires Inv(s) && !s.painting && s.xStart == 0 && s.yStart == 0
    ensures StartFull(s) == StartPartial(s, FullScreen)
  {
  }

  /**
   * With its left and top edges reset, a full paint started while idle is
   * the partial paint of the whole panel whatever came before it, so
   * PartialPaintVisitsRegion and PartialPaintPixelOrder apply to it: all
   * 320 x 240 pixels, each once, in row-major order.
   */
  lemma FixedFullPaintVisitsScreen(s: SweepState)
    requires Inv(s) && !s.painting
    ensures StartFullFixed(s) == StartPartial(s, FullScreen)
    ensures Inv(StartFullFixed(s)) && AtPixelStart(StartFullFixed(s))
    ensures |SweepTrace(StartFullFixed(s))| == ScreenWidth * ScreenHeight
  {
    PartialPaintVisitsRegion(s, FullScreen);
  }

  /**
   * The corrected full paint is sent in 3 * 320 * 240 ready ticks, 230400
   * data bytes, and is over after them.
   */
  lemma FixedFullPaintSendsScreen(s: SweepState, pixel: (int, int) -> bv32)
    requires Inv(s) && !s.painting
    ensures !Run(StartFullFixed(s), 3 * ScreenWidth * ScreenHeight, pixel).0.painting
    ensures Run(StartFullFixed(s), 3 * ScreenWidth * ScreenHeight, pixel).1
         == Stream(SweepTrace(StartFullFixed(s)), pixel)
    ensures |Run(StartFullFixed(s), 3 * ScreenWidth * ScreenHeight, pixel).1| == 230400
  {
    FixedFullPaintVisitsScreen(s);
    SweepSendsTrace(StartFullFixed(s), pixel);
  }

  /**
   * The walk a full paint makes when it keeps a stale left edge xStart on a
   * w x h panel (TraceIsRows: row 0 whole, then rows 1 .. h - 1 from xStart
   * only) is short, and its second row starts at xStart.
   */
  lemma StaleSweep(xStart: int, w: int, h: int)
    requires 0 < xStart < w && 1 < h
    ensures |Trace(0, 0, xStart, w, h)| == w + (h - 1) * (w - xStart)
    ensures Trace(0, 0, xStart, w, h)[w] == Pos(xStart, 1)
  {
    TraceIsRows(0, 0, xStart, w, h);
    RowFacts(0, w, 0);
    RowFacts(xStart, w, 1);
    RectFacts(xStart, w, 1, h);
    assert Rect(xStart, w, 1, h)[0] == Row(xStart, w, 1)[0];
  }

  /** The pixels that walk covers: row 0, and columns xStart .. w - 1 of every later row. */
  lemma StaleSweepCovers(xStart: int, w: int, h: int)
    requires 0 < xStart < w && 1 < h
    ensures forall p :: p in Trace(0, 0, xStart, w, h) <==> InRect(p, 0, w, 0, 1) || InRect(p, xStart, w, 1, h)
  {
    var row, rest := Row(0, w, 0), Rect(xStart, w, 1, h);
    TraceIsRows(0, 0, xStart, w, h);
    assert Trace(0, 0, xStart, w, h) == row + rest;
    RowMembers(0, w, 0);
    RectFacts(xStart, w, 1, h);
    forall p
      ensures p in row + rest <==> InRect(p, 0, w, 0, 1) || InRect(p, xStart, w, 1, h)
    {
      assert p in row + rest <==> p in row || p in rest;
    }
  }

  /**
   * As written, a full paint started while idle keeps the x_start of the
   * previous partial paint: row 0 is sent whole, but every later row starts
   * at x_start, so pixels 0 .. x_start - 1 of rows 1 .. 239 are never sent,
   * fewer pixels go out than the 320 x 240 window takes, and the 321st pixel
   * is (x_start, 1) where the window expects (0, 1).
   */
  lemma FullPaintKeepsStaleLeftEdge(s: SweepState)
    requires Inv(s) && !s.painting && 0 < s.xStart < ScreenWidth
    ensures |SweepTrace(StartFull(s))| == ScreenWidth + (ScreenHeight - 1) * (ScreenWidth - s.xStart)
    ensures |SweepTrace(StartFull(s))| < |SweepTrace(StartFullFixed(s))|
    ensures forall p :: p in SweepTrace(StartFull(s)) <==>
              InRect(p, 0, ScreenWidth, 0, 1) || InRect(p, s.xStart, ScreenWidth, 1, ScreenHeight)
    ensures SweepTrace(StartFull(s))[ScreenWidth] == Pos(s.xStart, 1)
    ensures SweepTrace(StartFullFixed(s))[ScreenWidth] == Pos(0, 1)
  {
    StaleSweep(s.xStart, ScreenWidth, ScreenHeight);
    StaleSweepCovers(s.xStart, ScreenWidth, ScreenHeight);
    FixedFullPaintVisitsScreen(s);
    PartialPaintPixelOrder(s, FullScreen);
  }
}
