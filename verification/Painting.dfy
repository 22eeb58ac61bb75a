/** What drawing does to the framebuffer, byte for byte. */
module Painting {
  import opened Bytes
  import opened Wrappers
  import opened Codec
  import opened Display

  /** The cache, if there is one, shows what the framebuffer does. */
  ghost predicate Faithful(s: Screen) { s.cache.Some? ==> s.cache.value == s.buffer }

  // ---- One pixel ------------------------------------------------------------------------------

  /** Where a call's bytes go. */
  function At(s: Screen, c: Call): (off: nat) { ByteOffset(s, c.x, c.y) }

  /** A component of the colour: the new value, or a mixture with what was there. */
  function Tint(p: Pixel, old_: byte, new_: byte, paint: Paint): (b: byte)
  {
    if p.a == 255 then new_ else paint.blend(p.a, old_, new_)
  }

  /** What a pixel makes of byte `k` of its place: red, green and blue in the order of the format, each mixed with the
      byte that was there; a grey byte for all three; the bytes left over are cleared. */
  function PaintedByte(format: Format, p: Pixel, old_: seq<byte>, k: nat, paint: Paint): (b: byte)
    requires k < |old_|
  {
    if p.a == 0 then old_[k]
    else if k > 2 then 0
    else if format == U8 then
      if k > 0 then 0
      else paint.lum(Tint(p, old_[0], p.r, paint), Tint(p, old_[0], p.g, paint), Tint(p, old_[0], p.b, paint))
    else if k == 1 then Tint(p, old_[1], p.g, paint)
    else if (k == 0) == (format == Rgb) then Tint(p, old_[k], p.r, paint)
    else Tint(p, old_[k], p.b, paint)
  }

  /** What a call makes of the bytes `old_` at its place. */
  function Painted(s: Screen, c: Call, old_: seq<byte>, paint: Paint): (bytes: seq<byte>)
    requires |old_| == s.bpp
    ensures |bytes| == s.bpp
  {
    seq(s.bpp, k requires 0 <= k < s.bpp => PaintedByte(s.format, c.pixel, old_, k, paint))
  }

  /** The bytes of `m` at the place of a call. */
  function Window(s: Screen, c: Call, m: seq<byte>): (bytes: seq<byte>)
    requires At(s, c) + s.bpp <= |m|
  {
    m[At(s, c)..At(s, c) + s.bpp]
  }

  /** `t` is `s` after one call. */
  ghost predicate Drew(s: Screen, c: Call, t: Screen, paint: Paint) {
    && Usable(t) && Faithful(t) && SameFrame(s, t) && At(s, c) + s.bpp <= |s.buffer|
    && t.buffer == Put(s.buffer, At(s, c), Painted(s, c, Window(s, c, s.buffer), paint))
  }

  /** A call changes its own bytes, and nothing else. */
  lemma PixelIs(s: Screen, c: Call, paint: Paint)
    requires Usable(s) && Faithful(s) && Inside(s, c)
    ensures var r := WritePixel(s, c, paint);
            r.Some? && Drew(s, c, r.value, paint)
  {
    PixelFits(s, c.x, c.y);
    PixelSafe(s, c, paint);
    var old_ := s.buffer[At(s, c)..At(s, c) + s.bpp];
    if c.pixel.a == 0 {
      assert Painted(s, c, old_, paint) == old_;
      PutSame(s.buffer, At(s, c), s.bpp);
    } else {
      ColourIs(s, c, old_, paint);
    }
  }

  lemma ColourIs(s: Screen, c: Call, old_: seq<byte>, paint: Paint)
    requires Usable(s) && Faithful(s) && Inside(s, c) && c.pixel.a != 0
    requires At(s, c) + s.bpp <= |s.buffer| && old_ == Window(s, c, s.buffer)
    ensures var rgb := Mixed(s, At(s, c), c.pixel, paint);
            rgb.Some? && ColourBytes(s.format, rgb.value, paint).value[..s.bpp] == Painted(s, c, old_, paint)
  {
    var rgb := Mixed(s, At(s, c), c.pixel, paint).value;
    var bytes := ColourBytes(s.format, rgb, paint).value[..s.bpp];
    forall k | 0 <= k < s.bpp ensures bytes[k] == PaintedByte(s.format, c.pixel, old_, k, paint) {}
  }

  lemma PutSame(m: seq<byte>, a: nat, n: nat)
    requires a + n <= |m|
    ensures Put(m, a, m[a..a + n]) == m
  {
  }

  /** Different pixels take different bytes. */
  lemma PixelsApart(s: Screen, c: Call, d: Call)
    requires Usable(s) && OnScreen(s, c) && OnScreen(s, d) && (c.x != d.x || c.y != d.y)
    ensures At(s, c) + s.bpp <= At(s, d) || At(s, d) + s.bpp <= At(s, c)
  {
    var i, j := c.y * s.stride + c.x, d.y * s.stride + d.x;
    IndicesDiffer(c.x, c.y, d.x, d.y, s.stride);
    BytesApart(i, j, s.bpp);
  }

  lemma IndicesDiffer(x: nat, y: nat, x': nat, y': nat, stride: nat)
    requires x < stride && x' < stride && (x != x' || y != y')
    ensures y * stride + x != y' * stride + x'
  {
    if y < y' { RowsApart(y, y', stride); } else if y' < y { RowsApart(y', y, stride); }
  }

  lemma BytesApart(i: nat, j: nat, bpp: nat)
    requires i != j
    ensures i * bpp + bpp <= j * bpp || j * bpp + bpp <= i * bpp
  {
    if i < j { RowsApart(i, j, bpp); } else { RowsApart(j, i, bpp); }
  }

  lemma RowsApart(y: nat, y': nat, stride: nat)
    requires y < y'
    ensures y * stride + stride <= y' * stride
  {
    MulLeft(y + 1, y', stride);
    assert (y + 1) * stride == y * stride + stride;
  }

  // ---- Many pixels ----------------------------------------------------------------------------

  /** No two calls go to the same place. */
  ghost predicate Spread(calls: seq<Call>) {
    forall i, j :: 0 <= i < j < |calls| ==> calls[i].x != calls[j].x || calls[i].y != calls[j].y
  }

  ghost predicate AllOnScreen(s: Screen, calls: seq<Call>) { forall i :: 0 <= i < |calls| ==> OnScreen(s, calls[i]) }

  predicate AllPaintable(s: Screen, calls: seq<Call>) { forall i :: 0 <= i < |calls| ==> Paintable(s, calls[i].pixel) }

  /** Every call has painted over what was there at the start, and no other byte has changed. */
  ghost predicate AllShown(s: Screen, calls: seq<Call>, m: seq<byte>, paint: Paint)
    requires Usable(s) && AllOnScreen(s, calls) && AllPaintable(s, calls)
  {
    && |m| == |s.buffer|
    && (forall i :: 0 <= i < |calls| ==> ShownAt(s, calls[i], m, paint))
    && (forall a :: 0 <= a < |m| && Untouched(s, calls, a) ==> m[a] == s.buffer[a])
  }

  ghost predicate ShownAt(s: Screen, c: Call, m: seq<byte>, paint: Paint)
    requires Usable(s) && Inside(s, c) && |m| == |s.buffer|
  {
    PixelFits(s, c.x, c.y);
    Window(s, c, m) == Painted(s, c, Window(s, c, s.buffer), paint)
  }

  ghost predicate Untouched(s: Screen, calls: seq<Call>, a: nat) {
    forall i :: 0 <= i < |calls| ==> !(At(s, calls[i]) <= a < At(s, calls[i]) + s.bpp)
  }

  /** Drawing panics exactly if some pixel cannot be painted. */
  lemma {:induction false} DrawPanicsIff(s: Screen, calls: seq<Call>, paint: Paint)
    requires Usable(s) && AllOnScreen(s, calls)
    ensures Draw(s, calls, paint).Some? <==> AllPaintable(s, calls)
    decreases |calls|
  {
    if calls != [] {
      PixelSafe(s, calls[0], paint);
      if Paintable(s, calls[0].pixel) {
        var t := WritePixel(s, calls[0], paint).value;
        DrawPanicsIff(t, calls[1..], paint);
        assert AllPaintable(t, calls[1..]) <==> AllPaintable(s, calls[1..]);
        assert AllPaintable(s, calls) <==> AllPaintable(s, calls[1..]);
      }
    }
  }

  /** A pixel elsewhere neither changes nor is changed by this one. */
  lemma Elsewhere(s: Screen, c: Call, d: Call, m: seq<byte>, bytes: seq<byte>)
    requires Usable(s) && OnScreen(s, c) && OnScreen(s, d) && (c.x != d.x || c.y != d.y)
    requires |m| == |s.buffer| && |bytes| == s.bpp
    ensures At(s, c) + s.bpp <= |m| && At(s, d) + s.bpp <= |m|
    ensures Window(s, d, Put(m, At(s, c), bytes)) == Window(s, d, m)
  {
    PixelFits(s, c.x, c.y);
    PixelFits(s, d.x, d.y);
    PixelsApart(s, c, d);
  }

  /** The calls could be drawn on `s`. */
  ghost predicate Drawable(s: Screen, calls: seq<Call>) {
    Usable(s) && AllOnScreen(s, calls) && AllPaintable(s, calls) && Spread(calls)
  }

  lemma DrawableRest(s: Screen, t: Screen, calls: seq<Call>)
    requires Drawable(s, calls) && calls != [] && SameFrame(s, t) && Usable(t)
    ensures Drawable(t, calls[1..])
  {
  }

  /** Calls to different places, drawn one after the other, each paint over what was there at the start. */
  lemma {:induction false} DrawShows(s: Screen, calls: seq<Call>, paint: Paint)
    requires Drawable(s, calls) && Faithful(s)
    ensures var r := Draw(s, calls, paint);
            r.Some? && SameFrame(s, r.value) && Faithful(r.value) && AllShown(s, calls, r.value.buffer, paint)
    decreases |calls|
  {
    if calls != [] {
      PixelIs(s, calls[0], paint);
      var t := WritePixel(s, calls[0], paint).value;
      DrawableRest(s, t, calls);
      DrawShows(t, calls[1..], paint);
      AllShownCons(s, t, calls, Draw(t, calls[1..], paint).value.buffer, paint);
    }
  }

  lemma AllShownCons(s: Screen, t: Screen, calls: seq<Call>, m: seq<byte>, paint: Paint)
    requires calls != [] && Drawable(s, calls) && Drew(s, calls[0], t, paint)
    requires Drawable(t, calls[1..]) && AllShown(t, calls[1..], m, paint)
    ensures AllShown(s, calls, m, paint)
  {
    var c, rest := calls[0], calls[1..];
    forall i | 0 <= i < |calls| ensures ShownAt(s, calls[i], m, paint) {
      if i == 0 {
        FirstStays(s, t, calls, m, paint);
      } else {
        assert rest[i - 1] == calls[i] && ShownAt(t, rest[i - 1], m, paint);
        LaterShown(s, t, c, calls[i], m, paint);
      }
    }
    forall a | 0 <= a < |m| && Untouched(s, calls, a) ensures m[a] == s.buffer[a] {
      UntouchedTail(s, t, calls, a);
      assert m[a] == t.buffer[a];
    }
  }

  lemma UntouchedTail(s: Screen, t: Screen, calls: seq<Call>, a: nat)
    requires calls != [] && SameFrame(s, t) && Untouched(s, calls, a)
    ensures Untouched(t, calls[1..], a) && !(At(s, calls[0]) <= a < At(s, calls[0]) + s.bpp)
  {
    forall i | 0 <= i < |calls[1..]| ensures !(At(t, calls[1..][i]) <= a < At(t, calls[1..][i]) + t.bpp) {
      assert calls[1..][i] == calls[i + 1];
    }
  }

  /** A later call found its place as it was at the start. */
  lemma LaterShown(s: Screen, t: Screen, c: Call, d: Call, m: seq<byte>, paint: Paint)
    requires Usable(s) && Inside(s, c) && Inside(s, d) && (c.x != d.x || c.y != d.y)
    requires Drew(s, c, t, paint) && |m| == |s.buffer|
    requires ShownAt(t, d, m, paint)
    ensures ShownAt(s, d, m, paint)
  {
    Elsewhere(s, c, d, s.buffer, Painted(s, c, Window(s, c, s.buffer), paint));
  }

  /** What the first call painted is still there at the end. */
  lemma FirstStays(s: Screen, t: Screen, calls: seq<Call>, m: seq<byte>, paint: Paint)
    requires calls != [] && Drawable(s, calls) && Drew(s, calls[0], t, paint)
    requires Drawable(t, calls[1..]) && AllShown(t, calls[1..], m, paint)
    ensures ShownAt(s, calls[0], m, paint)
  {
    var c, rest := calls[0], calls[1..];
    forall a | At(s, c) <= a < At(s, c) + s.bpp ensures m[a] == t.buffer[a] {
      forall i | 0 <= i < |rest| ensures !(At(t, rest[i]) <= a < At(t, rest[i]) + t.bpp) {
        PixelsApart(s, c, calls[i + 1]);
      }
      assert Untouched(t, rest, a);
    }
    assert Window(s, c, m) == Window(s, c, t.buffer);
  }
}
