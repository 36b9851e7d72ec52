/*
 * The ILI9341 driver object: the paint state of ili9341/ili9341.c:39-51 as
 * fields, the 32-slot ring of queued paint requests (partial_paint with its
 * index and head), and the log of every transfer written to the SPI link.
 * Each operation is specified against the value-level functions of
 * Ili9341Sweep, and against a ghost FIFO of the requests still queued.
 */
module Ili9341 {
  import opened Ili9341Protocol
  import opened Ili9341Sweep
  import opened Ili9341Queue

  /** The data transfers carrying some bytes. */
  function DataItems(bs: seq<bv8>): (items: seq<Item>)
    ensures |items| == |bs|
    ensures forall i :: 0 <= i < |bs| ==> items[i] == Data(bs[i])
  {
    if bs == [] then [] else [Data(bs[0])] + DataItems(bs[1..])
  }

  class Driver {
    var painting: bool
    var x: int
    var y: int
    var xStart: int
    var xEnd: int
    var yStart: int
    var yEnd: int
    var currentByte: int
    var pixelFetched: bool
    var pixelColor: bv32
    const queue: array<Slot>
    var index: int
    var head: int
    /** Every transfer written to the link, oldest first. */
    var sent: seq<Item>

    /** The requests waiting in the ring, the next one to be served first. */
    ghost var Pending: seq<Region>

    /** The paint fields as a value. */
    ghost function Sweep(): SweepState
      reads this
    {
      SweepState(painting, x, y, xStart, xEnd, yStart, yEnd, currentByte, pixelFetched, pixelColor)
    }

    /** The ring holds exactly the FIFO Pending, and the paint fields keep the sweep invariant. */
    ghost predicate Valid()
      reads this, queue
    {
      queue.Length == QueueLimit && Ring(queue[..], index, head, Pending) && Inv(Sweep())
    }

    /**
     * The driver after ili9341_init: the statics start at zero and the state
     * reset at the end of init leaves it idle with the cursor at the origin
     * and the bounds set to the whole panel.
     */
    constructor ()
      ensures Valid() && fresh(queue)
      ensures !painting && Pending == [] && sent == []
      ensures x == 0 && y == 0 && xStart == 0 && yStart == 0
      ensures xEnd == ScreenWidth && yEnd == ScreenHeight
    {
      queue := new Slot[QueueLimit](_ => Slot(Region(0, 0, 0, 0), false));
      index := 0;
      head := 0;
      currentByte := 0;
      pixelFetched := false;
      pixelColor := 0;
      sent := [];
      Pending := [];
      xStart := 0;
      x := 0;
      yStart := 0;
      y := 0;
      xEnd := ScreenWidth;
      yEnd := ScreenHeight;
      painting := false;
      new;
      RingEmpty(queue[..]);
    }

    /** ili9341_is_painting: whether a paint is under way. */
    method IsPainting() returns (r: bool)
      requires Valid()
      ensures r <==> Sweep().painting
      ensures r ==> Sweep().y < Sweep().yEnd
    {
      r := painting;
    }

    /** Store a request in the head slot and move head on, wrapping at 32. */
    method Enqueue(r: Region)
      requires Valid() && WellFormed(r) && !queue[head].pending
      modifies this, queue
      ensures Valid()
      ensures Pending == old(Pending) + [r]
      ensures Sweep() == old(Sweep()) && sent == old(sent) && index == old(index)
    {
      RingPush(queue[..], index, head, Pending, r);
      queue[head] := Slot(r, true);
      head := head + 1;
      if head == QueueLimit {
        head := 0;
      }
      Pending := Pending + [r];
    }

    /**
     * ili9341_paint, as written. While idle it starts the whole panel but
     * leaves x_start and y_start as they were (see StartFull). While busy it
     * queues the whole panel; the slot at head must be free.
     */
    method Paint()
      requires Valid()
      requires painting ==> !queue[head].pending
      modifies this, queue
      ensures Valid()
      ensures old(painting) ==>
        && Pending == old(Pending) + [FullScreen]
        && Sweep() == old(Sweep()) && sent == old(sent)
      ensures !old(painting) ==>
        && Pending == old(Pending) && unchanged(queue)
        && Sweep() == StartFull(old(Sweep()))
        && sent == old(sent) + FullScreenWindow()
    {
      if !painting {
        painting, x, y := true, 0, 0;
        xEnd, yEnd := ScreenWidth, ScreenHeight;
        currentByte := 0;
        sent := sent + SetAddress(0, 0, 319, 239);
      } else {
        Enqueue(FullScreen);
      }
    }

    /**
     * ili9341_paint with the left and top edges of the sweep reset too, so
     * that a full paint started while idle sweeps the whole panel whatever
     * region was painted before (see StartFullFixed).
     */
    method PaintFixed()
      requires Valid()
      requires painting ==> !queue[head].pending
      modifies this, queue
      ensures Valid()
      ensures old(painting) ==>
        && Pending == old(Pending) + [FullScreen]
        && Sweep() == old(Sweep()) && sent == old(sent)
      ensures !old(painting) ==>
        && Pending == old(Pending) && unchanged(queue)
        && Sweep() == StartFullFixed(old(Sweep())) == StartPartial(old(Sweep()), FullScreen)
        && sent == old(sent) + FullScreenWindow()
    {
      if !painting {
        painting, x, y := true, 0, 0;
        xStart, yStart := 0, 0;
        xEnd, yEnd := ScreenWidth, ScreenHeight;
        currentByte := 0;
        sent := sent + SetAddress(0, 0, 319, 239);
      } else {
        Enqueue(FullScreen);
      }
    }

    /**
     * ili9341_paint_partial. While idle it starts the region and programs
     * its address window; while busy it queues the region.
     */
    method PaintPartial(xPos: int, yPos: int, width: int, height: int)
      requires Valid() && WellFormed(Region(xPos, yPos, width, height))
      requires painting ==> !queue[head].pending
      modifies this, queue
      ensures Valid()
      ensures old(painting) ==>
        && Pending == old(Pending) + [Region(xPos, yPos, width, height)]
        && Sweep() == old(Sweep()) && sent == old(sent)
      ensures !old(painting) ==>
        && Pending == old(Pending) && unchanged(queue)
        && Sweep() == StartPartial(old(Sweep()), Region(xPos, yPos, width, height))
        && sent == old(sent) + AddressWindow(Region(xPos, yPos, width, height))
    {
      if painting {
        Enqueue(Region(xPos, yPos, width, height));
      } else {
        StartRegion(xPos, yPos, width, height);
      }
    }

    /** The idle branch of ili9341_paint_partial: set the cursor and bounds, then program the address window. */
    method StartRegion(xPos: int, yPos: int, width: int, height: int)
      requires Inv(Sweep()) && !painting && WellFormed(Region(xPos, yPos, width, height))
      modifies this
      ensures Sweep() == StartPartial(old(Sweep()), Region(xPos, yPos, width, height))
      ensures sent == old(sent) + AddressWindow(Region(xPos, yPos, width, height))
      ensures Pending == old(Pending) && index == old(index) && head == old(head)
    {
      var window := AddressWindow(Region(xPos, yPos, width, height));
      painting, x, y := true, xPos, yPos;
      xStart, yStart := x, y;
      xEnd, yEnd := x + width, y + height;
      sent := sent + window;
    }

    /**
     * ili9341_do_processing: while painting, PaintStep; while idle, serve
     * the oldest queued request, if any.
     */
    method DoProcessing(ready: bool, pixel: (int, int) -> bv32)
      requires Valid()
      modifies this, queue
      ensures Valid()
      ensures old(painting) ==>
        && Sweep() == PaintTick(old(Sweep()), ready, pixel).0
        && sent == old(sent) + DataItems(PaintTick(old(Sweep()), ready, pixel).1)
        && Pending == old(Pending) && unchanged(queue)
      ensures !old(painting) && old(Pending) != [] ==>
        && Sweep() == StartPartial(old(Sweep()), old(Pending)[0])
        && sent == old(sent) + AddressWindow(old(Pending)[0])
        && Pending == old(Pending)[1..]
      ensures !old(painting) && old(Pending) == [] ==>
        && Sweep() == old(Sweep()) && sent == old(sent) && Pending == old(Pending)
    {
      if painting {
        PaintStep(ready, pixel);
      } else {
        ServeQueue();
      }
    }

    /**
     * The painting branch of ili9341_do_processing, one PaintTick: fetch the
     * colour under the cursor unless cached, and when the link is ready send
     * the next of its three bytes, moving the cursor after the third.
     */
    method PaintStep(ready: bool, pixel: (int, int) -> bv32)
      requires Valid() && painting
      modifies this
      ensures Valid()
      ensures Sweep() == PaintTick(old(Sweep()), ready, pixel).0
      ensures sent == old(sent) + DataItems(PaintTick(old(Sweep()), ready, pixel).1)
      ensures Pending == old(Pending) && index == old(index) && head == old(head)
    {
      ghost var s0 := Sweep();
      FetchPixel(pixel);
      if ready {
        ReadyTickSendsPhaseByte(s0, pixel);
        var b := PixelBytes(pixelColor)[currentByte];
        assert [Data(b)] == DataItems([b]);
        SendByte();
      } else {
        BusyTickOnlyFetches(s0, pixel);
      }
    }

    /** Fetch the colour under the cursor through the mask, unless it is already cached. */
    method FetchPixel(pixel: (int, int) -> bv32)
      requires Inv(Sweep()) && painting
      modifies this
      ensures Sweep() == Fetch(old(Sweep()), pixel)
      ensures sent == old(sent) && Pending == old(Pending) && index == old(index) && head == old(head)
    {
      if !pixelFetched {
        pixelColor, pixelFetched := MaskedPixel(pixel, x, y), true;
      }
    }

    /**
     * Send byte currentByte of the cached colour and count it; after the
     * third byte drop the cache and move the cursor on, ending the paint
     * after the last row.
     */
    method SendByte()
      requires Inv(Sweep()) && painting && pixelFetched
      modifies this
      ensures sent == old(sent + [Data(PixelBytes(pixelColor)[currentByte])])
      ensures Sweep() ==
        if old(currentByte) < 2 then old(Sweep()).(currentByte := old(currentByte) + 1)
        else Advance(old(Sweep()).(currentByte := 0, pixelFetched := false))
      ensures Pending == old(Pending) && index == old(index) && head == old(head)
    {
      sent := sent + [Data(PixelBytes(pixelColor)[currentByte])];
      if currentByte == 0 {
        currentByte := 1;
      } else if currentByte == 1 {
        currentByte := 2;
      } else {
        currentByte, pixelFetched := 0, false;
        x := x + 1;
        if x >= xEnd {
          x, y := xStart, y + 1;
          if y >= yEnd {
            painting := false;
          }
        }
      }
    }

    /**
     * The idle branch of ili9341_do_processing: when the slot at index is
     * pending, start its region as ili9341_paint_partial does, free the
     * slot and move index on, wrapping at 32.
     */
    method ServeQueue()
      requires Valid() && !painting
      modifies this, queue
      ensures Valid()
      ensures old(Pending) != [] ==>
        && Sweep() == StartPartial(old(Sweep()), old(Pending)[0])
        && sent == old(sent) + AddressWindow(old(Pending)[0])
        && Pending == old(Pending)[1..]
      ensures old(Pending) == [] ==>
        && Sweep() == old(Sweep()) && sent == old(sent) && Pending == old(Pending)
    {
      RingEnds(queue[..], index, head, Pending);
      if queue[index].pending {
        var r := queue[index].region;
        PaintPartial(r.x, r.y, r.width, r.height);
        Release();
      }
    }

    /** Free the pending slot at index and move index on, wrapping at 32. */
    method Release()
      requires Valid() && queue[index].pending
      modifies this, queue
      ensures Valid()
      ensures old(Pending) != [] && Pending == old(Pending)[1..]
      ensures Sweep() == old(Sweep()) && sent == old(sent)
    {
      ghost var slots := queue[..];
      RingPop(slots, index, head, Pending);
      queue[index] := queue[index].(pending := false);
      assert queue[..] == slots[index := slots[index].(pending := false)];
      index := index + 1;
      if index == QueueLimit {
        index := 0;
      }
      Pending := Pending[1..];
    }
  }
}
