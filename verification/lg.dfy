/*
 * The label table of lglib (lg.c): ten label slots updated in place, the
 * background colour, and the log of repaint requests sent to the display
 * through its paint and paint_partial callbacks. Each setter is specified
 * by the table and log it leaves; LgLabel says what the requests cover
 * and what colour every pixel has.
 */
module Lg {
  import opened LgLabel

  class Gui {
    /** The font table every label is drawn with. */
    const font: Font
    const labels: array<Label>
    var background: bv32
    /** Every paint and paint_partial call made so far, oldest first. */
    var requests: seq<Request>

    /** Ten slots, and every slot not in use still has size 0. */
    ghost predicate Valid()
      reads this, labels
    {
      labels.Length == LabelCount && UnusedAreEmpty(labels[..])
    }

    /** The zero-initialised table and background, with no request made. */
    constructor (font: Font)
      ensures Valid() && fresh(labels) && this.font == font
      ensures labels[..] == seq(LabelCount, _ => Unused)
      ensures background == 0 && requests == []
    {
      this.font := font;
      labels := new Label[LabelCount](_ => Unused);
      background := 0;
      requests := [];
    }

    /** lg_set_background: store the colour and ask for a full repaint. */
    method SetBackground(color: bv32)
      requires Valid()
      modifies this
      ensures Valid()
      ensures background == color && requests == old(requests) + [FullRepaint]
    {
      background := color;
      requests := requests + [FullRepaint];
    }

    /**
     * lg_label_add: fill the lowest free slot with a visible label and ask
     * for its rectangle to be repainted; -1, with nothing changed, when all
     * ten slots are in use. `text` is the caller's buffer; the label keeps
     * the C string it holds, its characters before the first NUL.
     */
    method LabelAdd(text: seq<uint8>, size: uint8, spacing: uint8, color: bv32, x: uint16, y: uint16)
      returns (index: int)
      requires Valid()
      modifies this, labels
      ensures index == FirstFree(old(labels[..]))
      ensures index == -1 ==> labels[..] == old(labels[..]) && requests == old(requests)
      ensures index != -1 ==>
        && labels[..] == old(labels[..])[index := Label(CString(text), 1, true, size, spacing, x, y, color)]
        && requests == old(requests) + [Repaint(labels[index], StrLen(text))]
      ensures index != -1 && WidthFits(labels[index], StrLen(text)) ==>
        Covers(font, requests[|requests| - 1], old(labels[..]), labels[..], background)
      ensures Valid() && background == old(background)
    {
      var i := 0;
      while i < LabelCount
        invariant 0 <= i <= LabelCount
        invariant forall j :: 0 <= j < i ==> labels[j].inUse
        invariant labels[..] == old(labels[..]) && requests == old(requests)
      {
        if !labels[i].inUse {
          labels[i] := labels[i].(text := CString(text), x := x, y := y, size := size, spacing := spacing,
                                  color := color, visible := 1, inUse := true);
          requests := requests + [Repaint(labels[i], |labels[i].text|)];
          if WidthFits(labels[i], |labels[i].text|) {
            AddCoversChange(font, old(labels[..]), i, labels[i], background);
          }
          return i;
        }
        i := i + 1;
      }
      return -1;
    }

    /**
     * lg_label_set_string: ask for the label's rectangle to be repainted
     * for the longer of the old and the new text, then store the new text
     * (the C string the buffer holds).
     */
    method SetString(index: int, text: seq<uint8>)
      requires Valid() && 0 <= index < LabelCount
      modifies this, labels
      ensures labels[..] == old(labels[..])[index := old(labels[index]).(text := CString(text))]
      ensures requests == old(requests) + [Repaint(old(labels[index]), Max(|old(labels[index]).text|, StrLen(text)))]
      ensures WidthFits(old(labels[index]), Max(|old(labels[index]).text|, StrLen(text))) ==>
        Covers(font, requests[|requests| - 1], old(labels[..]), labels[..], background)
      ensures Valid() && background == old(background)
    {
      var length := |labels[index].text|;
      var newLength := StrLen(text);
      labels[index] := labels[index].(text := CString(text));
      if newLength > length {
        length := newLength;
      }
      requests := requests + [Repaint(labels[index], length)];
      if WidthFits(labels[index], length) {
        RepaintCoversChange(font, old(labels[..]), index, labels[index], background);
      }
    }

    /**
     * lg_label_set_visibility: when the flag differs, store it and ask for
     * the label's rectangle to be repainted; otherwise do nothing, so a
     * repeated call changes nothing.
     */
    method SetVisibility(index: int, visible: uint8)
      requires Valid() && 0 <= index < LabelCount
      modifies this, labels
      ensures labels[index].visible == visible
      ensures old(labels[index].visible) == visible ==> labels[..] == old(labels[..]) && requests == old(requests)
      ensures old(labels[index].visible) != visible ==>
        && labels[..] == old(labels[..])[index := old(labels[index]).(visible := visible)]
        && requests == old(requests) + [Repaint(old(labels[index]), |old(labels[index]).text|)]
        && (WidthFits(old(labels[index]), |old(labels[index]).text|) ==>
              Covers(font, requests[|requests| - 1], old(labels[..]), labels[..], background))
      ensures Valid() && background == old(background)
    {
      if labels[index].visible != visible {
        labels[index] := labels[index].(visible := visible);
        requests := requests + [Repaint(labels[index], |labels[index].text|)];
        if WidthFits(labels[index], |labels[index].text|) {
          RepaintCoversChange(font, old(labels[..]), index, labels[index], background);
        }
      }
    }

    /**
     * lg_label_set_color: when the colour differs, store it and ask for the
     * label's rectangle to be repainted; otherwise do nothing.
     */
    method SetColor(index: int, color: bv32)
      requires Valid() && 0 <= index < LabelCount
      modifies this, labels
      ensures labels[index].color == color
      ensures old(labels[index].color) == color ==> labels[..] == old(labels[..]) && requests == old(requests)
      ensures old(labels[index].color) != color ==>
        && labels[..] == old(labels[..])[index := old(labels[index]).(color := color)]
        && requests == old(requests) + [Repaint(old(labels[index]), |old(labels[index]).text|)]
        && (WidthFits(old(labels[index]), |old(labels[index]).text|) ==>
              Covers(font, requests[|requests| - 1], old(labels[..]), labels[..], background))
      ensures Valid() && background == old(background)
    {
      if labels[index].color != color {
        labels[index] := labels[index].(color := color);
        requests := requests + [Repaint(labels[index], |labels[index].text|)];
        if WidthFits(labels[index], |labels[index].text|) {
          RepaintCoversChange(font, old(labels[..]), index, labels[index], background);
        }
      }
    }

    /** lg_get_pixel: the colour of pixel (x, y) with every visible label drawn over the background. */
    method GetPixel(x: uint16, y: uint16) returns (pixel: bv32)
      requires Valid()
      ensures pixel == Layer(font, labels[..], x, y, background)
      ensures pixel == if TopHit(font, labels[..], x, y) == -1 then background
                       else labels[TopHit(font, labels[..], x, y)].color
    {
      pixel := background;
      var i := 0;
      while i < LabelCount
        invariant 0 <= i <= LabelCount
        invariant pixel == Layer(font, labels[..i], x, y, background)
      {
        assert labels[..i + 1][..i] == labels[..i];
        if labels[i].visible != 0 {
          pixel := StringPixel(font, labels[i], x, y, pixel);
        }
        i := i + 1;
      }
      assert labels[..i] == labels[..];
      LayerIsTopHit(font, labels[..], x, y, background);
    }
  }
}
