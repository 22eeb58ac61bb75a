/** The display object: the framebuffer, its shadow copy and the cursor, updated in place. */
module DisplayDevice {
  import opened Bytes
  import opened Wrappers
  import opened Codec
  import opened Display

  /** `copy_from_slice` into part of a buffer. */
  method Blit(a: array<byte>, off: nat, bytes: seq<byte>)
    requires off + |bytes| <= a.Length
    modifies a
    ensures a[..] == Put(old(a[..]), off, bytes)
  {
    forall k | 0 <= k < |bytes| { a[off + k] := bytes[k]; }
    assert a[..][off..off + |bytes|] == bytes;
    assert forall i :: 0 <= i < a.Length && !(off <= i < off + |bytes|) ==> a[..][i] == old(a[..])[i];
    PutUnique(old(a[..]), off, bytes, a[..]);
  }

  lemma PutUnique(m: seq<byte>, off: nat, bytes: seq<byte>, r: seq<byte>)
    requires off + |bytes| <= |m| == |r|
    requires r[off..off + |bytes|] == bytes
    requires forall i :: 0 <= i < |m| && !(off <= i < off + |bytes|) ==> r[i] == m[i]
    ensures r == Put(m, off, bytes)
  {
    assert r == r[..off] + r[off..off + |bytes|] + r[off + |bytes|..];
    assert r[..off] == m[..off] && r[off + |bytes|..] == m[off + |bytes|..];
  }

  method Fill(a: array<byte>)
    modifies a
    ensures a[..] == Zeros(a.Length)
  {
    forall i | 0 <= i < a.Length { a[i] := 0; }
  }

  /** `copy_within` to the front, then clear the tail. */
  method Shift(a: array<byte>, shift: nat, keep: nat)
    requires shift <= a.Length && keep < a.Length
    modifies a
    ensures a[..] == Scrolled(old(a[..]), shift, keep)
  {
    forall i | 0 <= i < a.Length - shift { a[i] := a[i + shift]; }
    forall i | keep + 1 <= i < a.Length { a[i] := 0; }
  }

  method Copy(dst: array<byte>, src: array<byte>)
    requires dst.Length == src.Length && dst != src
    modifies dst
    ensures dst[..] == src[..]
  {
    forall i | 0 <= i < dst.Length { dst[i] := src[i]; }
  }

  class Console {
    const buffer: array<byte>
    var cache: array?<byte>
    var width: nat
    var height: nat
    var stride: nat
    var bpp: nat
    var format: Format
    var xPos: nat
    var yPos: nat
    var lastCharWidth: nat
    const paint: Paint

    ghost predicate Valid()
      reads this
    {
      cache != buffer
    }

    ghost function View(): (s: Screen)
      reads this, buffer, cache
    {
      Screen(buffer[..], if cache == null then None else Some(cache[..]), width, height, stride, bpp, format,
             xPos, yPos, lastCharWidth)
    }

    constructor (buffer: array<byte>, width: nat, height: nat, stride: nat, bpp: nat, format: Format, paint: Paint)
      ensures Valid() && this.buffer == buffer && this.paint == paint
      ensures View() == Screen(buffer[..], None, width, height, stride, bpp, format, BORDER, BORDER, 0)
    {
      this.buffer, this.cache, this.paint := buffer, null, paint;
      this.width, this.height, this.stride, this.bpp, this.format := width, height, stride, bpp, format;
      xPos, yPos, lastCharWidth := BORDER, BORDER, 0;
    }

    /** `late_init`. */
    method TakeCache()
      modifies this
      ensures Valid() && fresh(cache) && View() == LateInit(old(View()))
    {
      var copy := new byte[buffer.Length](i requires 0 <= i < buffer.Length reads buffer => buffer[i]);
      assert copy[..] == buffer[..];
      cache := copy;
    }

    method Clear()
      requires Valid()
      modifies this, buffer, cache
      ensures Valid() && cache == old(cache) && View() == Display.Clear(old(View()))
    {
      xPos, yPos := BORDER, BORDER;
      Fill(buffer);
      if cache != null { Fill(cache); }
    }

    /** False is a panic, here and below. */
    method Scroll() returns (ok: bool)
      requires Valid()
      modifies buffer, cache
      ensures Valid()
      ensures Display.Scroll(old(View())) == if ok then Some(View()) else None
    {
      if height < LINE_HEIGHT { return false; }
      var nextLine := stride * LINE_HEIGHT * bpp;
      var bytes := stride * (height - LINE_HEIGHT) * bpp;
      ghost var before := View();
      assert nextLine == LineBytes(before) && bytes == KeptBytes(before);
      if cache == null {
        if nextLine > buffer.Length || bytes >= buffer.Length { return false; }
        Shift(buffer, nextLine, bytes);
        assert View() == before.(buffer := Scrolled(before.buffer, nextLine, bytes));
      } else {
        if nextLine > cache.Length || bytes >= cache.Length || cache.Length != buffer.Length { return false; }
        Shift(cache, nextLine, bytes);
        Copy(buffer, cache);
        ghost var after := Scrolled(before.cache.value, nextLine, bytes);
        assert View() == before.(buffer := after, cache := Some(after));
      }
      ok := true;
    }

    method WritePixel(c: Call) returns (ok: bool)
      requires Valid()
      modifies buffer, cache
      ensures Valid()
      ensures Display.WritePixel(old(View()), c, paint) == if ok then Some(View()) else None
    {
      if c.pixel.a == 0 { return true; }
      var off := (c.y * stride + c.x) * bpp;
      var rgb := Mix(off, c.pixel);
      if rgb == None { return false; }
      var color := ColourBytes(format, rgb.value, paint);
      if color == None { return false; }
      ok := Store(off, color.value);
    }

    /** The colour to store: read back from the cache, or else the framebuffer, if it has to be blended. */
    method Mix(off: nat, p: Pixel) returns (rgb: Option<(byte, byte, byte)>)
      requires Valid()
      ensures rgb == Mixed(View(), off, p, paint)
    {
      if p.a == 255 { return Some((p.r, p.g, p.b)); }
      var shadow := if cache != null then cache[..] else buffer[..];
      if off + bpp > |shadow| { return None; }
      var before := OldColour(format, shadow[off..off + bpp]);
      if before == None { return None; }
      var (r0, g0, b0) := before.value;
      rgb := Some((paint.blend(p.a, r0, p.r), paint.blend(p.a, g0, p.g), paint.blend(p.a, b0, p.b)));
    }

    method Store(off: nat, color: seq<byte>) returns (ok: bool)
      requires Valid() && |color| == 4
      modifies buffer, cache
      ensures Valid()
      ensures StorePixel(old(View()), off, color) == if ok then Some(View()) else None
    {
      if bpp > 4 || off + bpp > buffer.Length { return false; }
      Blit(buffer, off, color[..bpp]);
      if cache != null {
        if off + bpp > cache.Length { return false; }
        Blit(cache, off, color[..bpp]);
      }
      ok := true;
    }

    method NewLine() returns (ok: bool)
      requires Valid()
      modifies this, buffer, cache
      ensures Valid() && cache == old(cache)
      ensures Display.NewLine(old(View())) == if ok then Some(View()) else None
    {
      yPos := yPos + LINE_HEIGHT;
      xPos := BORDER;
      ok := true;
      if yPos + LINE_HEIGHT >= height {
        ok := Scroll();
        if ok { yPos := yPos - LINE_HEIGHT; }
      }
    }

    /** One `write_pixel` after the other; the nested loops over a raster make the calls `RasterCalls` lists. */
    method WritePixels(calls: seq<Call>) returns (ok: bool)
      requires Valid()
      modifies buffer, cache
      ensures Valid()
      ensures Draw(old(View()), calls, paint) == if ok then Some(View()) else None
    {
      for k := 0 to |calls|
        invariant Valid()
        invariant Draw(View(), calls[k..], paint) == Draw(old(View()), calls, paint)
      {
        assert calls[k..][0] == calls[k] && calls[k..][1..] == calls[k + 1..];
        ok := WritePixel(calls[k]);
        if !ok { return; }
      }
      ok := true;
    }

    method Raster(rows: seq<seq<byte>>) returns (ok: bool)
      requires Valid()
      modifies buffer, cache
      ensures Valid()
      ensures DrawRaster(old(View()), rows, paint) == if ok then Some(View()) else None
    {
      ok := WritePixels(RasterCalls(rows, xPos, yPos));
    }

    method Erase() returns (ok: bool)
      requires Valid()
      modifies this, buffer, cache
      ensures Valid() && cache == old(cache)
      ensures EraseChar(old(View()), paint) == if ok then Some(View()) else None
    {
      if xPos <= BORDER { return true; }
      if xPos < lastCharWidth { return false; }
      xPos := xPos - lastCharWidth;
      ok := Raster(Blank(lastCharWidth));
    }

    method Print(rows: seq<seq<byte>>, w: nat) returns (ok: bool)
      requires Valid()
      modifies this, buffer, cache
      ensures Valid() && cache == old(cache)
      ensures PrintGlyph(old(View()), rows, w, paint) == if ok then Some(View()) else None
    {
      if xPos + w >= width {
        ok := NewLine();
        if !ok { return; }
      }
      ok := Raster(rows);
      if !ok { return; }
      lastCharWidth := w;
      xPos := xPos + w;
    }

    method WriteChar(i: Input) returns (ok: bool)
      requires Valid()
      modifies this, buffer, cache
      ensures Valid() && cache == old(cache)
      ensures Display.WriteChar(old(View()), i, paint) == if ok then Some(View()) else None
    {
      match i
      case Newline => ok := NewLine();
      case Return =>
        xPos := BORDER;
        ok := true;
      case Backspace => ok := Erase();
      case Glyph(rows, w) => ok := Print(rows, w);
    }
  
    /** `write_rgba`: the decoder's calls, then the cursor below the picture. */
    method WriteRgba(bytes: seq<byte>) returns (ok: bool)
      requires Valid()
      modifies this, buffer, cache
      ensures Valid() && cache == old(cache)
      ensures Display.WriteRgba(old(View()), bytes, paint) == if ok then Some(View()) else None
    {
      var image := ReadImage(bytes, Cursor(xPos, yPos));
      if image == None { return false; }
      ok := WritePixels(image.value.0);
      if !ok { return; }
      xPos, yPos := image.value.1.x, image.value.1.y;
    }
  }
}
