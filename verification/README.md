# lglib core in Dafny: the ILI9341 paint engine and the label compositor

lglib drives an ILI9341 panel (320 x 240) over SPI. It has two parts.

- **The driver** (`ili9341/ili9341.c`) paints one rectangle at a time. A
  paint is started by `ili9341_paint` (the whole panel) or by
  `ili9341_paint_partial` (a region), and the start programs the
  controller's address window with `ili9341_set_address`. After that, each
  call of `ili9341_do_processing` advances the paint:
  - it fetches the colour of the pixel under the cursor, masked with
    0x7E7E7E;
  - when the SPI link is ready, it sends the next of the pixel's three
    bytes;
  - after the third byte, it moves the cursor row-major through the region.

  Requests made while a paint is running wait in a 32-slot ring. The idle
  branch of `ili9341_do_processing` starts them in order.
- **The label compositor** (`lg.c`) has a table of ten text labels and a
  background colour:
  - `lg_get_pixel` answers the driver's colour queries, drawing the visible
    labels over the background in index order;
  - `lg_get_string_pixel` decides the colour of one label at one pixel;
  - the setters change the table and ask the display to repaint the
    rectangle that changed.

Files:

- `ili9341_protocol.dfy`: the address-window command sequence and the
  decoder the controller applies to it, and the three bytes of a colour
  with the mask.
- `ili9341_sweep.dfy`: the paint state as a value (`SweepState`), and the
  tick of `ili9341_do_processing` as a function (`PaintTick`). It has a
  row-major reference order (`Rect`). Its lemmas cover whole paints: every
  pixel of the region is sent once, in order, as 3 bytes per pixel, and the
  paint then ends.
- `ili9341_queue.dfy`: the invariant `Ring`. It says the 32 slots with their
  index and head hold a FIFO of regions; enqueueing appends to that FIFO and
  dequeueing removes its first region.
- `ili9341_driver.dfy`: class `Driver`. The driver's statics are its fields
  and the ring is an array of slots. It logs every SPI transfer in `sent`.
  Each method is specified against the functions of the sweep and queue
  modules.
- `lg_label.dfy`: labels, the pixel query and the repaint rectangle, as
  values. `Hit` is an independent geometric definition of "the label's text
  draws this pixel". The lemmas show three things:
  - `lg_get_string_pixel`'s division-based arithmetic computes exactly
    `Hit`;
  - `lg_get_pixel` shows the highest-index label that draws a pixel;
  - every pixel a setter changes lies inside the rectangle that setter asks
    to repaint.
- `lg.dfy`: class `Gui`. The label array, the background and the log of
  repaint requests are updated in place by `lg_label_add`, the setters and
  `lg_set_background`. `lg_get_pixel` is modelled as a loop.
- `arithmetic.dfy`: quotient and product facts used by both halves.

What comes from outside the model:

- The colour source the driver queries (`ILI9341_GET_PIXEL`) is a function
  parameter `pixel`.
- `spi_ready` is a boolean parameter `ready`.
- The font table is a function `font`.
- The display callbacks become the `requests` log.

## Model

| member | source | states |
|---|---|---|
| Ili9341Protocol.SetAddress | ili9341/ili9341.c:175-192 | set_address sends eleven transfers: Column Address Set (2Ah) first, Page Address Set (2Bh) sixth, Memory Write (2Ch) last; what the data bytes mean is stated by SetAddressRoundTrip and DecodeAddressSound |
| Ili9341Protocol.SetAddressRoundTrip | ili9341/ili9341.c:175-192 | the controller reads the sequence back as exactly the window (x1, y1, x2, y2); each coordinate goes high byte first, and hi << 8 \| lo restores it |
| Ili9341Protocol.DecodeAddressSound | ili9341/ili9341.c:175-192 | the converse: every sequence the controller accepts as a window is the one set_address sends for that window |
| Ili9341Protocol.PixelBytes | ili9341/ili9341.c:377-391 | a colour is sent as exactly three bytes, one per case of the switch, in the order current_byte 0, 1, 2; which bits they carry is stated by PixelBytesRoundTrip and MaskedBytesClear |
| Ili9341Protocol.PixelBytesRoundTrip | ili9341/ili9341.c:377-391 | the three bytes sent for a colour are bits 23..16, 15..8 and 7..0, in that order, and together they give back its low 24 bits |
| Ili9341Protocol.MaskIsMasked | ili9341/ili9341.c:366 | any colour anded with 0x7E7E7E is masked |
| Ili9341Protocol.MaskedBytesClear | ili9341/ili9341.c:365-366 | once masked with 0x7E7E7E, a colour has bits 0 and 7 of each transmitted byte at zero |
| Ili9341Sweep.AddressWindowSelectsRegion | ili9341/ili9341.c:262-272 | the window programmed when a region starts decodes to its inclusive corners (x, y) and (x + width - 1, y + height - 1) |
| Ili9341Sweep.FullScreenWindow | ili9341/ili9341.c:199-207 | the window of a full paint decodes to (0, 0)-(319, 239) |
| Ili9341Sweep.StartPartial | ili9341/ili9341.c:262-268 | from an idle state, the start of a region leaves the paint on, at phase 0 with no colour cached, the cursor and x_start, y_start on the region's top-left pixel, and x_end, y_end at x + width and y + height, so the cursor lies inside the bounds |
| Ili9341Sweep.StartFull | ili9341/ili9341.c:199-206 | the full paint as written starts at (0, 0) with bounds 320 x 240 and a valid state at a pixel start, while x_start and y_start keep the values they had |
| Ili9341Sweep.StartFullFixed | ili9341/ili9341.c:199-206 | the corrected full start: from an idle state it is exactly the start of the whole panel as a region |
| Ili9341Sweep.Advance | ili9341/ili9341.c:392-402 | the cursor step after a pixel's third byte moves the paint one pixel along the cursor walk (Trace), and the paint stays on exactly while y < y_end |
| Ili9341Sweep.MaskedPixel | ili9341/ili9341.c:365-366 | a fetched colour is always masked, whatever the colour source returns |
| Ili9341Sweep.Fetch | ili9341/ili9341.c:363-368 | after the fetch a masked colour is cached: the masked colour of the pixel under the cursor when none was, the colour already cached otherwise, so each pixel is fetched once; nothing else in the state changes |
| Ili9341Sweep.PaintTick | ili9341/ili9341.c:358-405 | a tick keeps the invariant (phase 0..2, cached colour masked, the cursor's row above y_end) and sends one byte when the link is ready and none when it is busy |
| Ili9341Sweep.Run | ili9341/ili9341.c:358-405 | any number of ready ticks keeps the invariant |
| Ili9341Sweep.ReadyTickSendsPhaseByte | ili9341/ili9341.c:377-404 | a ready tick sends byte number current_byte of the cached colour and moves the phase 0 to 1 to 2 to 0; only the third byte moves the cursor and drops the cache |
| Ili9341Sweep.BusyTickOnlyFetches | ili9341/ili9341.c:363-373 | a busy tick sends nothing and changes only the cache; a busy tick followed by another tick acts as that tick alone |
| Ili9341Sweep.TickBytesClear | ili9341/ili9341.c:363-391 | every byte a tick sends has bits 0 and 7 clear |
| Ili9341Sweep.RunBytesClear | ili9341/ili9341.c:358-405 | so does every run of ticks |
| Ili9341Sweep.PixelTakesThreeTicks | ili9341/ili9341.c:377-404 | three ready ticks send one pixel's masked colour, high byte first, then move the cursor on |
| Ili9341Sweep.TraceIsRows | ili9341/ili9341.c:392-402 | the cursor walk from (x, y) finishes row y, then covers each later row from x_start to x_end - 1 |
| Ili9341Sweep.SweepSendsTrace | ili9341/ili9341.c:358-405 | from the start of a pixel, 3 x (pixels left) ready ticks send exactly the masked colours of the pixels the cursor visits, and the paint is then over |
| Ili9341Sweep.PaintingUntilDone | ili9341/ili9341.c:392-402 | the paint stays active until that last tick |
| Ili9341Sweep.PartialPaintIsRect | ili9341/ili9341.c:260-273 | a region started while idle is swept in the order of the row-major reference Rect |
| Ili9341Sweep.PartialPaintVisitsRegion | ili9341/ili9341.c:260-273 | that sweep visits every pixel of the region and no other, each once, in row-major order: width x height pixels |
| Ili9341Sweep.PartialPaintPixelOrder | ili9341/ili9341.c:260-273 | pixel i of the sweep is (x + i % width, y + i / width) |
| Ili9341Sweep.PartialPaintSendsRegion | ili9341/ili9341.c:260-273 | the region goes out in exactly 3 x width x height ready ticks, as the masked colours of its pixels in row-major order; the paint is active before the last of those ticks and over after it |
| Ili9341Sweep.FullPaintAfterInit | ili9341/ili9341.c:199-207 | right after the init reset (x_start = y_start = 0), the full paint as written is the partial paint of the whole panel |
| Ili9341Sweep.FixedFullPaintVisitsScreen | ili9341/ili9341.c:199-207 | a full paint with its edges reset is the partial paint of the whole panel whatever came before: 320 x 240 pixels, row-major |
| Ili9341Sweep.FixedFullPaintSendsScreen | ili9341/ili9341.c:199-207 | that paint sends 230400 data bytes in 3 x 320 x 240 ready ticks, and is then over |
| Ili9341Sweep.FullPaintKeepsStaleLeftEdge | ili9341/ili9341.c:199-207 | as written, a full paint started with x_start > 0 sends all of row 0, then only columns x_start..319 of rows 1..239; that is fewer pixels than the window, and the 321st pixel is (x_start, 1) |
| Ili9341Queue.Ring | ili9341/ili9341.c:25-51 | the invariant of the ring: the slots from index on, going round, hold the queued regions in order and are the only pending ones, and head is the slot after the last; every pending slot holds a well-formed region |
| Ili9341Queue.Next | ili9341/ili9341.c:240-243 | head and index move to (i + 1) mod 32 |
| Ili9341Queue.RingEmpty | ili9341/ili9341.c:48-51 | the zero-initialised ring holds the empty FIFO |
| Ili9341Queue.RingEnds | ili9341/ili9341.c:234 | the slot at index is pending exactly when requests wait, and holds the oldest one; the slot at head is pending exactly when 32 wait, which is when the _ASSERT fails |
| Ili9341Queue.RingPush | ili9341/ili9341.c:234-243 | filling the free head slot and moving head on appends the region to the FIFO; no other slot changes |
| Ili9341Queue.RingPop | ili9341/ili9341.c:410-423 | clearing the pending slot at index and moving index on removes the oldest region, the one that slot holds |
| Ili9341.Driver.constructor | ili9341/ili9341.c:39-51 | the statics start at zero and the init reset (lines 613-619) leaves the driver idle with an empty ring, the cursor at the origin and the bounds at 320 x 240 |
| Ili9341.Driver.IsPainting | ili9341/ili9341.c:344-347 | answers the painting flag |
| Ili9341.Driver.Enqueue | ili9341/ili9341.c:234-243 | the head slot takes the region and head moves on; the pending FIFO grows by that region and the paint state and link are untouched |
| Ili9341.Driver.Paint | ili9341/ili9341.c:197-223 | while busy, queues the whole panel; while idle, starts the whole panel as written (StartFull, x_start and y_start left as they were) and sends the window (0, 0)-(319, 239) |
| Ili9341.Driver.PaintFixed | ili9341/ili9341.c:197-223 | the corrected ili9341_paint: while idle its state is the start of the whole panel as a region (StartFullFixed), so the sweep covers the panel; while busy it queues the whole panel |
| Ili9341.Driver.PaintPartial | ili9341/ili9341.c:229-273 | while busy, queues the region; while idle, starts it (StartPartial) and sends its address window |
| Ili9341.Driver.StartRegion | ili9341/ili9341.c:260-273 | sets the cursor and the bounds to the region, then sends set_address(x, y, x_end - 1, y_end - 1) |
| Ili9341.Driver.DoProcessing | ili9341/ili9341.c:353-426 | while painting, one PaintTick: the new state is its state and the bytes it sends are appended to the log. While idle, the oldest queued region is started, or nothing happens when none waits |
| Ili9341.Driver.PaintStep | ili9341/ili9341.c:358-405 | the fields become PaintTick's state and the log grows by its bytes; the ring is untouched |
| Ili9341.Driver.FetchPixel | ili9341/ili9341.c:363-368 | the fields become Fetch's state |
| Ili9341.Driver.SendByte | ili9341/ili9341.c:377-404 | sends byte current_byte of the cached colour, then steps the phase, or after the third byte moves the cursor and ends the paint past the last row |
| Ili9341.Driver.ServeQueue | ili9341/ili9341.c:407-426 | the oldest waiting region is started as ili9341_paint_partial starts it and leaves the FIFO; with none waiting nothing changes |
| Ili9341.Driver.Release | ili9341/ili9341.c:419-423 | clearing the slot and moving index on drops the FIFO's first region |
| LgLabel.StrLen | lg.c:84 | strlen: no NUL among the characters it counts, and a NUL right after them unless the buffer ends there |
| LgLabel.CString | lg.c:104-105 | the string a label keeps is the buffer's prefix up to its first NUL, and contains no NUL |
| LgLabel.NoNulKeptWhole | lg.c:84 | a buffer without a NUL is kept whole |
| LgLabel.NulEndsString | lg.c:84 | whatever follows the first NUL of a buffer is not part of the label's text and does not widen its repaint |
| LgLabel.Pitch | lg.c:200 | the cell width (8 + spacing) x size is the glyph's 8 x size columns plus the spacing's spacing x size; what it means for drawing is stated by SpacingShowsBackground and StringPixelIsHit |
| LgLabel.CharIndex | lg.c:200 | str_pos is a cell whose left edge lies at or before x |
| LgLabel.Column | lg.c:210 | char_x is never negative: the pixel lies at or right of its cell's left edge |
| LgLabel.GlyphRow | lg.c:211 | char_y lies in 0..7 for every pixel in the label's band |
| LgLabel.StringPixel | lg.c:175-223 | the result is the label's colour or the colour below; it is the colour below when the label is invisible or the pixel is left of it, above it or below it |
| LgLabel.ColumnSet | lg.c:215 | the font test passes exactly when char_x is below 8 and the glyph row has the font pixel of column char_x on |
| LgLabel.ShiftTestIsGlyphOn | lg.c:215 | shifting a glyph row left by char_x and testing 0x80 tests bit 7 - char_x |
| LgLabel.BlockPosition | lg.c:200-211 | a pixel in the block of font pixel (cx, cy) of character i gets str_pos = i, char_x = cx and char_y = cy |
| LgLabel.CellOfPixel | lg.c:200-211 | conversely, every pixel in the label's band lies in the block of the cell, column and row computed for it |
| LgLabel.HitReachesFont | lg.c:183-222 | a pixel the text draws passes every range test and the font test |
| LgLabel.FontTestHits | lg.c:183-222 | a pixel that passes them is drawn by the text |
| LgLabel.StringPixelIsHit | lg.c:175-223 | lg_get_string_pixel gives the label's colour exactly where its text draws (Hit) and the colour below everywhere else |
| LgLabel.SpacingShowsBackground | lg.c:210-222 | pixels in the spacing columns after each glyph show the colour below |
| LgLabel.Layer | lg.c:153-170 | the fold of lg_get_pixel: the result is the background or the colour of one of the labels |
| LgLabel.TopHit | lg.c:160-167 | the highest index whose label draws the pixel: that label draws it and no later one does |
| LgLabel.LayerIsTopHit | lg.c:153-170 | a pixel no visible label draws shows the background; otherwise it shows the colour of the highest-index label that draws it |
| LgLabel.LayerChangeIsLocal | lg.c:153-170 | replacing one label leaves every pixel that neither the old nor the new label draws unchanged |
| LgLabel.Repaint | lg.c:91 | the repaint rectangle starts at the label's (x, y), is 8 x size high and length x pitch wide, truncated to 16 bits; that it covers what the label draws is stated by HitInsideRepaint, RepaintCoversChange and AddCoversChange |
| LgLabel.HitInsideRepaint | lg.c:110-111 | every pixel a label draws lies inside its repaint rectangle for any length at least its text's, as long as the width fits 16 bits |
| LgLabel.RepaintCoversChange | lg.c:104-112 | replacing a label by one at the same place with the same size changes only pixels inside the rectangle repainted for the longer text |
| LgLabel.AddCoversChange | lg.c:79-91 | filling a slot whose label has size 0, as every unused slot has, changes only pixels inside the new label's repaint rectangle, when its width fits in 16 bits |
| LgLabel.FirstFree | lg.c:77-96 | the lowest slot not in use, or -1 when all are in use |
| Lg.Gui.constructor | lg.c:42-43 | the zero-initialised table and background, with no request made; every slot is unused and of size 0 (Valid) |
| Lg.Gui.SetBackground | lg.c:64-68 | stores the colour and asks for exactly one full repaint; the table is untouched, so Valid is kept |
| Lg.Gui.LabelAdd | lg.c:73-97 | takes FirstFree. It fills that slot with a visible, in-use label with the given fields and the buffer's C string, and asks for one repaint of its rectangle for strlen characters, which covers every pixel the new label changes when its width fits in 16 bits; with no free slot it returns -1 and changes nothing. It keeps Valid: a slot not in use still has size 0, since the size is written only where the slot is taken |
| Lg.Gui.SetString | lg.c:102-113 | stores the buffer's C string and asks for one repaint for the longer of the old text and strlen of the new one; when that width fits 16 bits, every pixel that changed lies inside it |
| Lg.Gui.SetVisibility | lg.c:118-129 | with an equal flag, changes nothing and asks nothing. Otherwise it stores the flag and asks for one repaint, which covers every changed pixel when its width fits 16 bits; the flag always ends equal to the argument, so a repeated call changes nothing |
| Lg.Gui.SetColor | lg.c:134-148 | with an equal colour, changes nothing and asks nothing. Otherwise it stores the colour and asks for one repaint, which covers every changed pixel when its width fits 16 bits |
| Lg.Gui.GetPixel | lg.c:153-170 | the loop's result is Layer over the ten labels: the colour of the highest-index visible label drawing the pixel, else the background |

## Left out

- Panel register initialisation is not modelled: the tuning tables, GPIO and SPI setup, and reset delays of `ili9341_init` (ili9341/ili9341.c:430-608). The lifecycle commands sleep, wake, display on and display off (ili9341/ili9341.c:279-341) are left out too: they are one-shot command writes with delays.
- The address window that `ili9341_init` sends (ili9341/ili9341.c:608-609) is not in the constructor's `sent` log. Only its state reset is modelled.
- SPI and GPIO primitives and the busy-wait in `LCD_WRITE_DATA` are left out. `spi_ready` is the `ready` parameter, and each write is an `Item` appended to `sent`.
- The drain of the receive buffer before the paint ends (ili9341/ili9341.c:399-400) is left out: it is a hardware wait. `painting` ends as 0, as on line 401.
- The bounds-merge branch of `ili9341_paint_partial` (ili9341/ili9341.c:245-257) is compiled out by the `ILI9341_ENQUEUE_PAINT_REQUESTS` define on line 37.
- The byte reads through `((unsigned char*)&pixel_color)[2..0]` assume a little-endian target. They are modelled as shifts giving bits 23..16, 15..8 and 7..0.
- Concurrency is not modelled: each call runs to completion before the next.
- The font bitmap table: `font.h` is not part of this model, so the font is a function parameter. The unused `font` argument and `font_data` field of `lg_label_add` are not modelled.
- `lg_init`'s callback registration (lg.c:55-59) is left out. The callbacks become the `requests` log.
- Label strings are stored by value, as the C string the caller's buffer holds (`CString`, its characters before the first NUL), so the `length` field, `strlen` of that buffer (`StrLen`), is the text's length after every call. Pointer aliasing is not modelled: the source keeps the caller's pointer, so later changes to that buffer show through.
- Ili9341.Driver.PaintPartial: requires non-negative int16 coordinates and a non-empty region (`WellFormed`). The source also accepts negative and zero arguments, which it converts to unsigned 16-bit values and stores. The model keeps coordinates as unbounded integers, and `WellFormed` keeps every sum below 65536.
- Ili9341.Driver.Enqueue: requires the head slot to be free, which is the source's `_ASSERT`. So Paint, PaintFixed and PaintPartial require it too, when called while painting. DoProcessing does not: its idle branch starts the queued region without enqueueing. The halt on a failed assertion is not modelled.
- LgLabel.StringPixel: uses unbounded integer arithmetic on the uint16 and byte fields. It treats every column past the eighth (char_x of 8 or more; char_x reaches 7 + spacing) as background, which is what the 0x80 test gives wherever the shift is defined. The source targets the dsPIC, whose int is 16 bits wide, and there C differs from the model in three ways the model does not capture: `str.y + 8 * str.size` is unsigned 16-bit and wraps for labels near the bottom of the coordinate range; `(8 + spacing) * size` overflows the signed int once it exceeds 32767; and the glyph row, promoted to int and shifted left by char_x, can exceed the int's range from char_x 8 on, with the shift itself undefined from char_x 16 on (spacing 9 or more). With a 32-bit int, shifts of 24 or more overflow for glyph rows with bit 7 set (char_x reaches 24 from spacing 17), and shifts of 32 or more are undefined for every row (from spacing 25).
- LgLabel.HitInsideRepaint: the repaint width is truncated to 16 bits as the callback's `uint16_t` argument demands. The covering lemmas therefore hold only when the width fits in 16 bits; a wider label would get a wrapped, smaller rectangle.
- Lg.Gui.SetString: requires an index below 10, as do SetVisibility and SetColor. The source indexes the table without a check, so a larger index is out of bounds.

## Findings

| source | as written | input that shows it | evidently intended | confidence | as-written member | corrected member |
|---|---|---|---|---|---|---|
| ili9341/ili9341.c:199-207 | `ili9341_paint` started while idle resets x, y, x_end, y_end and current_byte, but leaves x_start and y_start from the last partial paint. The cursor returns to x_start at the end of each row (line 395). | `ili9341_paint_partial(100, 0, 10, 10)` runs to completion, then `ili9341_paint()` is called. Rows 1..239 are swept from column 100: 320 + 239 x 220 = 52900 pixels go into a 76800-pixel window, and pixel 321 is (100, 1) instead of (0, 1). | x_start and y_start reset to 0 with x and y, so the full paint sweeps the whole panel | high; not executed | Ili9341Sweep.FullPaintKeepsStaleLeftEdge | Ili9341Sweep.FixedFullPaintVisitsScreen |
