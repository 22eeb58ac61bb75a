/** The boot logo from the picture to the framebuffer: what the build script encodes and the console decodes ends
    up, byte for byte, where it belongs. */
module Logo {
  import opened Bytes
  import opened Codec
  import opened Display
  import opened Painting

  // ---- The logo -------------------------------------------------------------------------------

  lemma {:induction false} PlacesDiffer(p: nat, q: nat, width: nat)
    requires width > 0 && p < q
    ensures p % width != q % width || p / width != q / width
  {
    assert p == width * (p / width) + p % width && q == width * (q / width) + q % width;
  }

  /** Pixels in their places are on the screen, if the picture fits inside the border, and all in different ones. */
  lemma InPlaceSpread(s: Screen, calls: seq<Call>, pixels: seq<Pixel>, width: nat, height: nat)
    requires width > 0 && InPlace(calls, pixels, width) && |pixels| == width * height
    requires BORDER + width <= s.width && BORDER + height <= s.height
    ensures Spread(calls) && AllOnScreen(s, calls)
  {
    forall p, q | 0 <= p < q < |calls| ensures calls[p].x != calls[q].x || calls[p].y != calls[q].y {
      PlacesDiffer(p, q, width);
    }
    forall p | 0 <= p < |calls| ensures OnScreen(s, calls[p]) { RowOf(p, width, height); }
  }

  /** The bytes the build script writes for a picture. */
  function Encoded(width: nat, height: nat, pixels: seq<Pixel>): (bytes: seq<byte>)
  {
    Header(width, height) + AllBytes(AllButLast(Runs(pixels)))
  }

  /** The decoder reaches the bottom before the bytes run out. */
  predicate Reaches(width: nat, height: nat, pixels: seq<Pixel>) {
    var rs := Runs(pixels);
    rs != [] && rs[|rs| - 1].count <= if height >= 2 then width else width - 1
  }

  /** From the picture to the screen. A picture that fits inside the border of a usable screen with the cursor home,
      such as a cleared one, is drawn exactly if the decoder reaches the bottom and every pixel shown can be
      painted. Then each pixel of all rows but the last (of a single row, the first) has painted its own bytes over
      what was there, and no other byte of the framebuffer has changed. */
  lemma LogoShows(s: Screen, width: nat, height: nat, pixels: seq<Pixel>, paint: Paint)
    requires Usable(s) && Faithful(s) && s.x == BORDER && s.y == BORDER
    requires BORDER + width <= s.width && BORDER + height <= s.height
    requires width < Pow256(4) && height < Pow256(4) && |pixels| == width * height && RunsFit(Runs(pixels))
    ensures var r := WriteRgba(s, Encoded(width, height, pixels), paint);
            var n := Shown(width, height);
            && (r.Some? <==> Reaches(width, height, pixels) && PixelsPaintable(s, n, pixels))
            && (r.Some? ==>
                  && width > 0 && n <= |pixels| && SameFrame(s, r.value.(x := s.x, y := s.y))
                  && r.value.x == BORDER && r.value.y == height + SPACING
                  && PictureShown(s, n, pixels, width, r.value.buffer, paint))
  {
    RoundTrip(width, height, pixels);
    var d := DecodeImage(Encoded(width, height, pixels), Cursor(BORDER, BORDER));
    if d.Some? {
      CallsArePlaces(d.value.0, pixels, width);
      PlacesShow(s, d.value.0, |d.value.0|, pixels, width, height, paint);
    }
  }

  /** The first `n` pixels can be painted. */
  predicate PixelsPaintable(s: Screen, n: nat, pixels: seq<Pixel>) {
    forall p :: 0 <= p < n && p < |pixels| ==> Paintable(s, pixels[p])
  }

  lemma CallsArePlaces(calls: seq<Call>, pixels: seq<Pixel>, width: nat)
    requires width > 0 && InPlace(calls, pixels, width)
    ensures calls == Places(|calls|, pixels, width)
  {
  }

  lemma PlacesShow(s: Screen, calls: seq<Call>, n: nat, pixels: seq<Pixel>, width: nat, height: nat, paint: Paint)
    requires Usable(s) && Faithful(s) && BORDER + width <= s.width && BORDER + height <= s.height
    requires width > 0 && |pixels| == width * height && InPlace(calls, pixels, width) && n == |calls|
    requires calls == Places(n, pixels, width)
    ensures var r := Draw(s, calls, paint);
            && (r.Some? <==> PixelsPaintable(s, n, pixels))
            && (r.Some? ==> SameFrame(s, r.value) && PictureShown(s, n, pixels, width, r.value.buffer, paint))
  {
    InPlaceSpread(s, calls, pixels, width, height);
    DrawPanicsIff(s, calls, paint);
    SamePaintable(s, calls, pixels, width);
    if AllPaintable(s, calls) { DrawShows(s, calls, paint); }
  }

  lemma SamePaintable(s: Screen, calls: seq<Call>, pixels: seq<Pixel>, width: nat)
    requires width > 0 && InPlace(calls, pixels, width)
    ensures AllPaintable(s, calls) <==> PixelsPaintable(s, |calls|, pixels)
  {
    if AllPaintable(s, calls) {
      forall p | 0 <= p < |calls| && p < |pixels| ensures Paintable(s, pixels[p]) {
        assert Paintable(s, calls[p].pixel);
      }
    }
  }

  /** Pixel `p` of the picture, as it is drawn. */
  function Place(p: nat, pixels: seq<Pixel>, width: nat): (c: Call)
    requires width > 0 && p < |pixels|
  {
    Call(BORDER + p % width, BORDER + p / width, pixels[p])
  }

  function Places(n: nat, pixels: seq<Pixel>, width: nat): (calls: seq<Call>)
    requires width > 0 && n <= |pixels|
  {
    seq(n, p requires 0 <= p < n => Place(p, pixels, width))
  }

  /** `m` shows the first `n` pixels of the picture over `s`, and is `s` elsewhere. */
  ghost predicate PictureShown(s: Screen, n: nat, pixels: seq<Pixel>, width: nat, m: seq<byte>, paint: Paint)
    requires Usable(s) && width > 0 && n <= |pixels|
  {
    var calls := Places(n, pixels, width);
    AllOnScreen(s, calls) && AllPaintable(s, calls) && AllShown(s, calls, m, paint)
  }

  /** On a screen just cleared, the picture is all there is: every byte that is not one of its pixels is zero. */
  lemma ClearedLogoShows(s: Screen, width: nat, height: nat, pixels: seq<Pixel>, paint: Paint)
    requires Usable(s) && BORDER + width <= s.width && BORDER + height <= s.height
    requires width < Pow256(4) && height < Pow256(4) && |pixels| == width * height && RunsFit(Runs(pixels))
    ensures var r := WriteRgba(Clear(s), Encoded(width, height, pixels), paint);
            var n := Shown(width, height);
            r.Some? ==>
              && width > 0 && n <= |pixels| && |r.value.buffer| == |s.buffer|
              && forall a :: 0 <= a < |s.buffer| && Untouched(s, Places(n, pixels, width), a) ==> r.value.buffer[a] == 0
  {
    var t := Clear(s);
    LogoShows(t, width, height, pixels, paint);
    var r := WriteRgba(t, Encoded(width, height, pixels), paint);
    if r.Some? {
      var places := Places(Shown(width, height), pixels, width);
      forall a | 0 <= a < |s.buffer| && Untouched(s, places, a) ensures r.value.buffer[a] == 0 {
        assert forall c: Call :: At(t, c) == At(s, c);
        assert Untouched(t, places, a);
      }
    }
  }
}
