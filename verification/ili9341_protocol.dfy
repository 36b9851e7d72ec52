/*
 * Wire-level pieces of the ILI9341 driver: the address-window command
 * sequence (Column Address Set 2Ah, Page Address Set 2Bh and Memory
 * Write 2Ch, sections 8.2.20 to 8.2.22 of the ILI9341 datasheet) and the
 * three data bytes a pixel colour is sent as.
 */
module Ili9341Protocol {

  datatype Option<T> = None | Some(value: T)

  /** One transfer on the SPI link: a command byte (D/C line low) or a data byte (D/C line high). */
  datatype Item = Cmd(code: bv8) | Data(value: bv8)

  const ColumnAddressSet: bv8 := 0x2A
  const PageAddressSet: bv8 := 0x2B
  const MemoryWrite: bv8 := 0x2C

  /** The colour mask applied to every fetched pixel: bits 0 and 7 of each channel cleared. */
  const PixelMask: bv32 := 0x7E7E7E

  /** The high byte of a 16-bit argument (`v >> 8`). */
  function Hi(v: bv16): bv8 { (v >> 8) as bv8 }

  /** The low byte of a 16-bit argument (its truncation to a byte). */
  function Lo(v: bv16): bv8 { (v & 0xFF) as bv8 }

  /** The inclusive column and page window programmed by one address-set sequence. */
  datatype Window = Window(x1: bv16, y1: bv16, x2: bv16, y2: bv16)

  /** The transfers sent by ili9341_set_address(x1, y1, x2, y2). */
  function SetAddress(x1: bv16, y1: bv16, x2: bv16, y2: bv16): (r: seq<Item>)
    ensures |r| == 11
    ensures r[0] == Cmd(ColumnAddressSet) && r[5] == Cmd(PageAddressSet) && r[10] == Cmd(MemoryWrite)
  {
    [Cmd(ColumnAddressSet), Data(Hi(x1)), Data(Lo(x1)), Data(Hi(x2)), Data(Lo(x2)),
     Cmd(PageAddressSet), Data(Hi(y1)), Data(Lo(y1)), Data(Hi(y2)), Data(Lo(y2)),
     Cmd(MemoryWrite)]
  }

  /** The big-endian 16-bit value carried by two data transfers. */
  function Word(hi: bv8, lo: bv8): (v: bv16)
    ensures v >> 8 == hi as bv16 && v & 0xFF == lo as bv16
  {
    (hi as bv16 << 8) | lo as bv16
  }

  /** How the controller reads an address-set sequence back: the window it selects, if well formed. */
  function DecodeAddress(items: seq<Item>): (r: Option<Window>)
    ensures r.Some? ==> |items| == 11 && items[10] == Cmd(MemoryWrite)
  {
    if |items| == 11
       && items[0] == Cmd(ColumnAddressSet) && items[5] == Cmd(PageAddressSet) && items[10] == Cmd(MemoryWrite)
       && items[1].Data? && items[2].Data? && items[3].Data? && items[4].Data?
       && items[6].Data? && items[7].Data? && items[8].Data? && items[9].Data?
    then
      Some(Window(Word(items[1].value, items[2].value), Word(items[6].value, items[7].value),
                  Word(items[3].value, items[4].value), Word(items[8].value, items[9].value)))
    else
      None
  }

  /** Every coordinate is recoverable from its two bytes as (hi << 8) | lo, that is hi * 256 + lo. */
  lemma SetAddressRoundTrip(x1: bv16, y1: bv16, x2: bv16, y2: bv16)
    ensures DecodeAddress(SetAddress(x1, y1, x2, y2)) == Some(Window(x1, y1, x2, y2))
  {
    WordOfBytes(x1);
    WordOfBytes(y1);
    WordOfBytes(x2);
    WordOfBytes(y2);
  }

  lemma WordOfBytes(v: bv16)
    ensures Word(Hi(v), Lo(v)) == v
  {
  }

  /** Conversely, every well-formed address-set sequence is the one set_address sends for its window. */
  lemma DecodeAddressSound(items: seq<Item>, w: Window)
    requires DecodeAddress(items) == Some(w)
    ensures items == SetAddress(w.x1, w.y1, w.x2, w.y2)
  {
    BytesOfWord(items[1].value, items[2].value);
    BytesOfWord(items[3].value, items[4].value);
    BytesOfWord(items[6].value, items[7].value);
    BytesOfWord(items[8].value, items[9].value);
  }

  lemma BytesOfWord(hi: bv8, lo: bv8)
    ensures Hi(Word(hi, lo)) == hi && Lo(Word(hi, lo)) == lo
  {
  }

  /**
   * The three data bytes of a colour in the order the tick sends them:
   * bits 23..16, then 15..8, then 7..0.
   */
  function PixelBytes(c: bv32): (r: seq<bv8>)
    ensures |r| == 3
  {
    [HighByte(c), MidByte(c), LowByte(c)]
  }

  function HighByte(c: bv32): bv8 { ((c >> 16) & 0xFF) as bv8 }
  function MidByte(c: bv32): bv8 { ((c >> 8) & 0xFF) as bv8 }
  function LowByte(c: bv32): bv8 { (c & 0xFF) as bv8 }

  /** The three bytes put back together give the low 24 bits of the colour. */
  lemma PixelBytesRoundTrip(c: bv32)
    ensures var b := PixelBytes(c);
      (b[0] as bv32 << 16) | (b[1] as bv32 << 8) | b[2] as bv32 == c & 0xFF_FFFF
  {
  }

  /** A colour that the mask leaves as it is. */
  predicate Masked(c: bv32)
  {
    c & PixelMask == c
  }

  /** Masking is idempotent. */
  lemma MaskIsMasked(c: bv32)
    ensures Masked(c & PixelMask)
  {
  }

  /** A masked colour has bits 0 and 7 of every transmitted byte at zero. */
  lemma MaskedBytesClear(c: bv32)
    requires Masked(c)
    ensures var b := PixelBytes(c); b[0] & 0x81 == 0 && b[1] & 0x81 == 0 && b[2] & 0x81 == 0
  {
  }
}
