/** The framebuffer console: pixels, characters, scrolling, and the shadow copy that spares reading the framebuffer. */
module Display {
  import opened Bytes
  import opened Wrappers
  import opened Arith
  import opened Codec

  const LINE_HEIGHT: nat := 18
  const GLYPH_ROWS: nat := 16

  datatype Format = Rgb | Bgr | U8 | Unknown

  /** The two floating-point formulas, as functions of their inputs: mixing alpha, old and new; and luminance. */
  datatype Paint = Paint(blend: (byte, byte, byte) -> byte, lum: (byte, byte, byte) -> byte)

  datatype Screen = Screen(
    buffer: seq<byte>, cache: Option<seq<byte>>, width: nat, height: nat, stride: nat, bpp: nat, format: Format,
    x: nat, y: nat, lastWidth: nat)

  // ---- Pixels ---------------------------------------------------------------------------------

  function ByteOffset(s: Screen, x: nat, y: nat): (off: nat) { (y * s.stride + x) * s.bpp }

  /** Where blending reads the old colour: the cache if there is one. */
  function Shadow(s: Screen): (m: seq<byte>) { if s.cache.Some? then s.cache.value else s.buffer }

  /** The old colour; None if the bytes are not there or the format is not known. */
  function OldColour(format: Format, bytes: seq<byte>): (r: Option<(byte, byte, byte)>)
  {
    match format
    case Rgb => if |bytes| >= 3 then Some((bytes[0], bytes[1], bytes[2])) else None
    case Bgr => if |bytes| >= 3 then Some((bytes[2], bytes[1], bytes[0])) else None
    case U8 => if |bytes| >= 1 then Some((bytes[0], bytes[0], bytes[0])) else None
    case Unknown => None
  }

  /** The colour to store, blended if the pixel is translucent. */
  function Mixed(s: Screen, off: nat, p: Pixel, paint: Paint): (r: Option<(byte, byte, byte)>)
  {
    if p.a == 255 then Some((p.r, p.g, p.b))
    else if off + s.bpp > |Shadow(s)| then None
    else
      match OldColour(s.format, Shadow(s)[off..off + s.bpp])
      case None => None
      case Some((r0, g0, b0)) => Some((paint.blend(p.a, r0, p.r), paint.blend(p.a, g0, p.g), paint.blend(p.a, b0, p.b)))
  }

  function ColourBytes(format: Format, rgb: (byte, byte, byte), paint: Paint): (r: Option<seq<byte>>)
    ensures r.Some? ==> |r.value| == 4
  {
    match format
    case Rgb => Some([rgb.0, rgb.1, rgb.2, 0])
    case Bgr => Some([rgb.2, rgb.1, rgb.0, 0])
    case U8 => Some([paint.lum(rgb.0, rgb.1, rgb.2), 0, 0, 0])
    case Unknown => None
  }

  /** `write_pixel`; None is a panic. */
  function WritePixel(s: Screen, c: Call, paint: Paint): (r: Option<Screen>)
  {
    if c.pixel.a == 0 then Some(s)
    else
      var off := ByteOffset(s, c.x, c.y);
      match Mixed(s, off, c.pixel, paint)
      case None => None
      case Some(rgb) =>
        match ColourBytes(s.format, rgb, paint)
        case None => None
        case Some(bytes) => StorePixel(s, off, bytes)
  }

  function StorePixel(s: Screen, off: nat, bytes: seq<byte>): (r: Option<Screen>)
    requires |bytes| == 4
  {
    if s.bpp > 4 || off + s.bpp > |s.buffer| then None
    else
      var t := s.(buffer := Put(s.buffer, off, bytes[..s.bpp]));
      match s.cache
      case None => Some(t)
      case Some(m) =>
        if off + s.bpp > |m| then None else Some(t.(cache := Some(Put(m, off, bytes[..s.bpp]))))
  }

  function Draw(s: Screen, calls: seq<Call>, paint: Paint): (r: Option<Screen>)
    decreases |calls|
  {
    if calls == [] then Some(s)
    else
      match WritePixel(s, calls[0], paint)
      case None => None
      case Some(t) => Draw(t, calls[1..], paint)
  }

  // ---- Clearing and scrolling -----------------------------------------------------------------

  function Zeros(n: nat): (m: seq<byte>)
    ensures |m| == n && forall i :: 0 <= i < n ==> m[i] == 0
  {
    seq(n, _ => 0)
  }

  function Clear(s: Screen): (t: Screen)
  {
    s.(x := BORDER, y := BORDER, buffer := Zeros(|s.buffer|),
       cache := if s.cache.Some? then Some(Zeros(|s.cache.value|)) else None)
  }

  /** `copy_within(shift.., 0)` and then `fill(0)` from `keep + 1` on. */
  function Scrolled(m: seq<byte>, shift: nat, keep: nat): (r: seq<byte>)
    requires shift <= |m| && keep < |m|
    ensures |r| == |m|
  {
    (m[shift..] + m[|m| - shift..])[..keep + 1] + Zeros(|m| - keep - 1)
  }

  function LineBytes(s: Screen): (n: nat) { s.stride * LINE_HEIGHT * s.bpp }
  function KeptBytes(s: Screen): (n: nat)
    requires s.height >= LINE_HEIGHT
  {
    s.stride * (s.height - LINE_HEIGHT) * s.bpp
  }

  /** `scroll`; with a cache, the framebuffer is copied from it and never read. None is a panic. */
  function Scroll(s: Screen): (r: Option<Screen>)
  {
    if s.height < LINE_HEIGHT then None
    else
      var m := Shadow(s);
      if LineBytes(s) > |m| || KeptBytes(s) >= |m| then None
      else
        var after := Scrolled(m, LineBytes(s), KeptBytes(s));
        if s.cache == None then Some(s.(buffer := after))
        else if |m| != |s.buffer| then None
        else Some(s.(buffer := after, cache := Some(after)))
  }

  /** Whatever the size of the framebuffer, scrolling that does not panic moves everything up one text line, as far as
      there is something to move, and clears the rest, except the first byte of the rest. */
  lemma ScrollMoves(s: Screen)
    requires Scroll(s).Some?
    ensures var (m, after, d, k) := (Shadow(s), Scroll(s).value.buffer, LineBytes(s), KeptBytes(s));
            && k < |m| == |after|
            && (forall i :: 0 <= i < |m| ==> after[i] == if i > k then 0 else if i + d < |m| then m[i + d] else m[i])
  {
  }

  /** What is left in the first byte that should have been cleared: the byte a line further on, if there is one. */
  function LeftOver(s: Screen): (b: byte)
    requires s.height >= LINE_HEIGHT && KeptBytes(s) < |Shadow(s)|
  {
    var (m, d, k) := (Shadow(s), LineBytes(s), KeptBytes(s));
    if k + d < |m| then m[k + d] else m[k]
  }

  lemma MulLeft(a: nat, b: nat, c: nat)
    requires a <= b
    ensures a * c <= b * c
  {
    assert (b - a) * c >= 0;
    assert b * c == a * c + (b - a) * c;
  }

  /** A text line is 18 rows of pixels. */
  lemma LineOffsets(s: Screen, x: nat, y: nat)
    ensures ByteOffset(s, x, y + 18) == ByteOffset(s, x, y) + LineBytes(s)
    ensures s.height >= 18 ==> KeptBytes(s) == ByteOffset(s, 0, s.height - 18)
  {
    calc {
      (y + 18) * s.stride + x;
      s.stride * LINE_HEIGHT + (y * s.stride + x);
    }
    var p, q := s.stride * LINE_HEIGHT, y * s.stride + x;
    assert (p + q) * s.bpp == p * s.bpp + q * s.bpp;
    if s.height >= 18 { assert (s.height - 18) * s.stride == s.stride * (s.height - LINE_HEIGHT); }
  }

  /** Byte `b` of a pixel, by row: rows from the first cleared one on come at or after its first byte, which only the
      first byte of its first pixel is. */
  lemma RowBytes(s: Screen, x: nat, y: nat, b: nat, row: nat)
    requires x < s.stride && b < s.bpp
    ensures y < row ==> ByteOffset(s, x, y) + b < ByteOffset(s, 0, row)
    ensures y >= row ==> ByteOffset(s, x, y) + b >= ByteOffset(s, 0, row)
    ensures y >= row && ByteOffset(s, x, y) + b == ByteOffset(s, 0, row) ==> x == 0 && y == row && b == 0
  {
    var p, q := y * s.stride + x, row * s.stride;
    RowIndex(x, y, row, s.stride);
    if p < q { IndexBytes(p, q, b, s.bpp); } else if q < p { IndexBytes(q, p, 0, s.bpp); }
  }

  lemma RowIndex(x: nat, y: nat, row: nat, stride: nat)
    requires x < stride
    ensures y < row <==> y * stride + x < row * stride
    ensures y * stride + x == row * stride ==> x == 0 && y == row
  {
    if y < row {
      MulLeft(y + 1, row, stride);
      assert (y + 1) * stride == y * stride + stride;
    } else {
      MulLeft(row, y, stride);
      if y > row {
        MulLeft(row + 1, y, stride);
        assert (row + 1) * stride == row * stride + stride;
      }
    }
  }

  lemma IndexBytes(p: nat, q: nat, b: nat, bpp: nat)
    requires p < q && b < bpp
    ensures p * bpp + b < q * bpp
  {
    MulLeft(p + 1, q, bpp);
    assert (p + 1) * bpp == p * bpp + bpp;
  }

  /** Scrolling, pixel by pixel: what was 18 rows further down is shown, and the last 18 rows are black, except the
      very first byte of them. */
  lemma ScrollRows(s: Screen, x: nat, y: nat, b: nat)
    requires Scroll(s).Some? && ByteOffset(s, 0, s.height) <= |Shadow(s)|
    requires x < s.stride && y < s.height && b < s.bpp
    ensures ByteOffset(s, x, y) + b < |Shadow(s)| == |Scroll(s).value.buffer|
    ensures y + 18 < s.height ==> ByteOffset(s, x, y + 18) + b < |Shadow(s)|
    ensures Scroll(s).value.buffer[ByteOffset(s, x, y) + b]
            == if y + 18 < s.height then Shadow(s)[ByteOffset(s, x, y + 18) + b]
               else if x == 0 && y + 18 == s.height && b == 0 then LeftOver(s) else 0
  {
    ScrollMoves(s);
    LineOffsets(s, x, y);
    RowBytes(s, x, y, b, s.height);
    RowBytes(s, x, y + 18, b, s.height);
    RowBytes(s, x, y, b, s.height - 18);
  }

  /** With a framebuffer of at least `height` rows it is a clean scroll exactly if that byte is zero. */
  lemma CleanScrollIff(s: Screen)
    requires Scroll(s).Some? && LineBytes(s) + KeptBytes(s) <= |Shadow(s)|
    ensures var (m, d, k) := (Shadow(s), LineBytes(s), KeptBytes(s));
            k < |m| && (Scroll(s).value.buffer == m[d..d + k] + Zeros(|m| - k) <==> LeftOver(s) == 0)
  {
    ScrollMoves(s);
    MovedCleanly(Shadow(s), Scroll(s).value.buffer, LineBytes(s), KeptBytes(s));
  }

  lemma MovedCleanly(m: seq<byte>, after: seq<byte>, d: nat, k: nat)
    requires d + k <= |m| == |after| && k < |m|
    requires forall i :: k < i < |m| ==> after[i] == 0
    requires forall i :: 0 <= i < k ==> after[i] == m[i + d]
    ensures after == m[d..d + k] + Zeros(|m| - k) <==> after[k] == 0
  {
    var clean := m[d..d + k] + Zeros(|m| - k);
    assert clean[k] == 0;
    if after[k] == 0 { assert after == clean; }
  }

  // ---- Characters -----------------------------------------------------------------------------

  /** What a character asks for: a glyph comes as its raster, one byte of grey per pixel. */
  datatype Input = Newline | Return | Backspace | Glyph(rows: seq<seq<byte>>, width: nat)

  function Grey(b: byte): (p: Pixel) { Pixel(b, b, b, 255) }

  function RowCalls(row: seq<byte>, x: nat, y: nat): (calls: seq<Call>)
    ensures |calls| == |row| && forall j :: 0 <= j < |row| ==> calls[j] == Call(x + j, y, Grey(row[j]))
  {
    seq(|row|, j requires 0 <= j < |row| => Call(x + j, y, Grey(row[j])))
  }

  /** The nested loops over a raster. */
  function RasterCalls(rows: seq<seq<byte>>, x: nat, y: nat): (calls: seq<Call>)
    decreases |rows|
  {
    if rows == [] then [] else RowCalls(rows[0], x, y) + RasterCalls(rows[1..], x, y + 1)
  }

  /** What backspace draws over the last character. */
  function Blank(width: nat): (rows: seq<seq<byte>>)
    ensures |rows| == LINE_HEIGHT
  {
    seq(LINE_HEIGHT, _ => Zeros(width))
  }

  function NewLine(s: Screen): (r: Option<Screen>)
  {
    var t := s.(y := s.y + LINE_HEIGHT, x := BORDER);
    if t.y + LINE_HEIGHT < t.height then Some(t)
    else
      match Scroll(t)
      case None => None
      case Some(u) => Some(u.(y := u.y - LINE_HEIGHT))
  }

  /** A raster drawn at the cursor. */
  function DrawRaster(s: Screen, rows: seq<seq<byte>>, paint: Paint): (r: Option<Screen>)
  {
    Draw(s, RasterCalls(rows, s.x, s.y), paint)
  }

  /** Backspace: back by the last width, and blank what was there. */
  function EraseChar(s: Screen, paint: Paint): (r: Option<Screen>)
  {
    if s.x <= BORDER then Some(s)
    else if s.x < s.lastWidth then None
    else DrawRaster(s.(x := s.x - s.lastWidth), Blank(s.lastWidth), paint)
  }

  /** A glyph, on the next line if this one has no room for it. */
  function PrintGlyph(s: Screen, rows: seq<seq<byte>>, width: nat, paint: Paint): (r: Option<Screen>)
  {
    match (if s.x + width >= s.width then NewLine(s) else Some(s))
    case None => None
    case Some(t) =>
      match DrawRaster(t, rows, paint)
      case None => None
      case Some(u) => Some(u.(lastWidth := width, x := u.x + width))
  }

  /** `write_char`; None is a panic (a pixel outside the buffer, or a cursor below zero). */
  function WriteChar(s: Screen, i: Input, paint: Paint): (r: Option<Screen>)
  {
    match i
    case Newline => NewLine(s)
    case Return => Some(s.(x := BORDER))
    case Backspace => EraseChar(s, paint)
    case Glyph(rows, width) => PrintGlyph(s, rows, width, paint)
  }

  /** `write_rgba`. */
  function WriteRgba(s: Screen, bytes: seq<byte>, paint: Paint): (r: Option<Screen>)
  {
    match DecodeImage(bytes, Cursor(s.x, s.y))
    case None => None
    case Some((calls, end)) =>
      match Draw(s, calls, paint)
      case None => None
      case Some(t) => Some(t.(x := end.x, y := end.y))
  }

  // ---- The cache is transparent ---------------------------------------------------------------

  datatype Op = OpClear | OpPixel(call: Call) | OpChar(input: Input) | OpImage(bytes: seq<byte>) | OpScroll

  function Apply(s: Screen, op: Op, paint: Paint): (r: Option<Screen>)
  {
    match op
    case OpClear => Some(Clear(s))
    case OpPixel(call) => WritePixel(s, call, paint)
    case OpChar(input) => WriteChar(s, input, paint)
    case OpImage(bytes) => WriteRgba(s, bytes, paint)
    case OpScroll => Scroll(s)
  }

  function ApplyAll(s: Screen, ops: seq<Op>, paint: Paint): (r: Option<Screen>)
    decreases |ops|
  {
    if ops == [] then Some(s)
    else
      match Apply(s, ops[0], paint)
      case None => None
      case Some(t) => ApplyAll(t, ops[1..], paint)
  }

  /** `s` has a faithful cache, and `t` is `s` without it. */
  ghost predicate Twin(s: Screen, t: Screen) { s.cache == Some(s.buffer) && t == s.(cache := None) }

  /** Both fail, or both succeed and are twins again. */
  ghost predicate Alike(r: Option<Screen>, q: Option<Screen>) {
    (r == None && q == None) || (r.Some? && q.Some? && Twin(r.value, q.value))
  }

  /** `late_init` takes the cache as a copy of the framebuffer. */
  function LateInit(s: Screen): (t: Screen) { s.(cache := Some(s.buffer)) }

  lemma PixelAlike(s: Screen, t: Screen, c: Call, paint: Paint)
    requires Twin(s, t)
    ensures Alike(WritePixel(s, c, paint), WritePixel(t, c, paint))
  {
    var off := ByteOffset(s, c.x, c.y);
    assert off == ByteOffset(t, c.x, c.y);
    assert Mixed(s, off, c.pixel, paint) == Mixed(t, off, c.pixel, paint);
    forall bytes: seq<byte> | |bytes| == 4 ensures Alike(StorePixel(s, off, bytes), StorePixel(t, off, bytes)) {
      StoreAlike(s, t, off, bytes);
    }
  }

  lemma StoreAlike(s: Screen, t: Screen, off: nat, bytes: seq<byte>)
    requires Twin(s, t) && |bytes| == 4
    ensures Alike(StorePixel(s, off, bytes), StorePixel(t, off, bytes))
  {
  }

  lemma {:induction false} DrawAlike(s: Screen, t: Screen, calls: seq<Call>, paint: Paint)
    requires Twin(s, t)
    ensures Alike(Draw(s, calls, paint), Draw(t, calls, paint))
    decreases |calls|
  {
    if calls != [] {
      PixelAlike(s, t, calls[0], paint);
      var r, q := WritePixel(s, calls[0], paint), WritePixel(t, calls[0], paint);
      if r.Some? { DrawAlike(r.value, q.value, calls[1..], paint); }
    }
  }

  lemma ScrollAlike(s: Screen, t: Screen)
    requires Twin(s, t)
    ensures Alike(Scroll(s), Scroll(t))
  {
    assert LineBytes(s) == LineBytes(t);
    if s.height >= LINE_HEIGHT { assert KeptBytes(s) == KeptBytes(t); }
  }

  lemma NewLineAlike(s: Screen, t: Screen)
    requires Twin(s, t)
    ensures Alike(NewLine(s), NewLine(t))
  {
    ScrollAlike(s.(y := s.y + LINE_HEIGHT, x := BORDER), t.(y := t.y + LINE_HEIGHT, x := BORDER));
  }

  lemma CharAlike(s: Screen, t: Screen, i: Input, paint: Paint)
    requires Twin(s, t)
    ensures Alike(WriteChar(s, i, paint), WriteChar(t, i, paint))
  {
    match i
    case Newline => NewLineAlike(s, t);
    case Return =>
    case Backspace => EraseAlike(s, t, paint);
    case Glyph(rows, width) => GlyphAlike(s, t, rows, width, paint);
  }

  lemma EraseAlike(s: Screen, t: Screen, paint: Paint)
    requires Twin(s, t)
    ensures Alike(EraseChar(s, paint), EraseChar(t, paint))
  {
    if BORDER < s.x && s.lastWidth <= s.x {
      var back, blank := s.x - s.lastWidth, Blank(s.lastWidth);
      RasterAlike(s.(x := back), t.(x := back), blank, paint);
      assert EraseChar(s, paint) == DrawRaster(s.(x := back), blank, paint);
      assert EraseChar(t, paint) == DrawRaster(t.(x := back), blank, paint);
    }
  }

  lemma RasterAlike(s: Screen, t: Screen, rows: seq<seq<byte>>, paint: Paint)
    requires Twin(s, t)
    ensures Alike(DrawRaster(s, rows, paint), DrawRaster(t, rows, paint))
  {
    DrawAlike(s, t, RasterCalls(rows, s.x, s.y), paint);
  }

  lemma GlyphAlike(s: Screen, t: Screen, rows: seq<seq<byte>>, width: nat, paint: Paint)
    requires Twin(s, t)
    ensures Alike(PrintGlyph(s, rows, width, paint), PrintGlyph(t, rows, width, paint))
  {
    NewLineAlike(s, t);
    var r := if s.x + width >= s.width then NewLine(s) else Some(s);
    var q := if t.x + width >= t.width then NewLine(t) else Some(t);
    if r.Some? { RasterAlike(r.value, q.value, rows, paint); }
  }

  lemma ApplyAlike(s: Screen, t: Screen, op: Op, paint: Paint)
    requires Twin(s, t)
    ensures Alike(Apply(s, op, paint), Apply(t, op, paint))
  {
    match op
    case OpClear =>
    case OpPixel(call) => PixelAlike(s, t, call, paint);
    case OpChar(input) => CharAlike(s, t, input, paint);
    case OpImage(bytes) =>
      var d := DecodeImage(bytes, Cursor(s.x, s.y));
      if d.Some? { DrawAlike(s, t, d.value.0, paint); }
    case OpScroll => ScrollAlike(s, t);
  }

  /** The shadow cache is transparent: for every sequence of operations, a display with the cache taken over its
      framebuffer panics exactly when one without would, shows the same bytes and moves the cursor alike; and its cache
      stays equal to the framebuffer. */
  lemma {:induction false} CacheTransparent(s: Screen, t: Screen, ops: seq<Op>, paint: Paint)
    requires Twin(s, t)
    ensures Alike(ApplyAll(s, ops, paint), ApplyAll(t, ops, paint))
    decreases |ops|
  {
    if ops != [] {
      ApplyAlike(s, t, ops[0], paint);
      var r, q := Apply(s, ops[0], paint), Apply(t, ops[0], paint);
      if r.Some? { CacheTransparent(r.value, q.value, ops[1..], paint); }
    }
  }

  /** In particular from `late_init` on. */
  lemma LateInitTransparent(s: Screen, ops: seq<Op>, paint: Paint)
    requires s.cache == None
    ensures Alike(ApplyAll(LateInit(s), ops, paint), ApplyAll(s, ops, paint))
  {
    CacheTransparent(LateInit(s), s, ops, paint);
  }

  // ---- The cursor is safe ---------------------------------------------------------------------

  /** A framebuffer large enough for its dimensions, in a format the driver knows. */
  ghost predicate Usable(s: Screen) {
    && s.width <= s.stride && 0 < s.bpp <= 4 && s.format != Unknown
    && s.stride * s.height * s.bpp <= |s.buffer|
    && (s.cache.Some? ==> |s.cache.value| == |s.buffer|)
  }

  /** Where typing fixed-width glyphs can leave the cursor. */
  ghost predicate Typing(s: Screen, w: nat) {
    && Usable(s) && 0 < w && BORDER + w < s.width
    && s.y + LINE_HEIGHT < s.height
    && BORDER <= s.x <= s.width && (s.x - BORDER) % w == 0
    && (s.x > BORDER ==> s.lastWidth == w)
  }

  /** Only the pixels differ. */
  ghost predicate SameFrame(s: Screen, t: Screen) {
    && t == s.(buffer := t.buffer, cache := t.cache) && |t.buffer| == |s.buffer|
    && t.cache.Some? == s.cache.Some? && (s.cache.Some? ==> |t.cache.value| == |s.cache.value|)
  }

  lemma MulSplit(a: nat, b: nat, c: nat, d: nat)
    ensures a * (b + c) * d == a * b * d + a * c * d
  {
    assert a * (b + c) == a * b + a * c;
    assert (a * b + a * c) * d == a * b * d + a * c * d;
  }

  /** A pixel inside the dimensions is inside the buffer. */
  lemma PixelFits(s: Screen, x: nat, y: nat)
    requires Usable(s) && x < s.width && y < s.height
    ensures ByteOffset(s, x, y) + s.bpp <= |s.buffer|
  {
    var pixel := y * s.stride + x;
    MulLeft(y + 1, s.height, s.stride);
    assert (y + 1) * s.stride == y * s.stride + s.stride;
    assert s.height * s.stride == s.stride * s.height;
    MulLeft(pixel + 1, s.stride * s.height, s.bpp);
    assert (pixel + 1) * s.bpp == pixel * s.bpp + s.bpp;
  }

  predicate OnScreen(s: Screen, c: Call) { c.x < s.width && c.y < s.height }

  /** A translucent pixel is blended, which takes three bytes of the old colour, or one in grey. */
  predicate Paintable(s: Screen, p: Pixel) { p.a == 0 || p.a == 255 || s.format == U8 || s.bpp >= 3 }

  ghost predicate Inside(s: Screen, c: Call) { OnScreen(s, c) && Paintable(s, c.pixel) }

  /** A pixel on the screen is written inside the buffer; it panics exactly if there are too few bytes to blend. */
  lemma PixelSafe(s: Screen, c: Call, paint: Paint)
    requires Usable(s) && OnScreen(s, c)
    ensures WritePixel(s, c, paint).Some? <==> Paintable(s, c.pixel)
    ensures WritePixel(s, c, paint).Some? ==> SameFrame(s, WritePixel(s, c, paint).value)
  {
    PixelFits(s, c.x, c.y);
  }

  lemma {:induction false} DrawSafe(s: Screen, calls: seq<Call>, paint: Paint)
    requires Usable(s) && forall c :: c in calls ==> Inside(s, c)
    ensures Draw(s, calls, paint).Some? && SameFrame(s, Draw(s, calls, paint).value)
    decreases |calls|
  {
    if calls != [] {
      assert calls[0] in calls;
      PixelSafe(s, calls[0], paint);
      var t := WritePixel(s, calls[0], paint).value;
      forall c | c in calls[1..] ensures Inside(t, c) { assert c in calls; }
      DrawSafe(t, calls[1..], paint);
    }
  }

  lemma {:induction false} RasterInside(s: Screen, rows: seq<seq<byte>>, w: nat, x: nat, y: nat)
    requires forall r :: r in rows ==> |r| == w
    requires x + w <= s.width && y + |rows| <= s.height
    ensures forall c :: c in RasterCalls(rows, x, y) ==> Inside(s, c)
    decreases |rows|
  {
    if rows != [] {
      assert rows[0] in rows && forall r :: r in rows[1..] ==> r in rows;
      RasterInside(s, rows[1..], w, x, y + 1);
    }
  }

  lemma ScrollSafe(s: Screen)
    requires Usable(s) && s.height > LINE_HEIGHT && s.stride > 0
    ensures Scroll(s).Some? && SameFrame(s, Scroll(s).value)
  {
    var keep := s.height - LINE_HEIGHT;
    MulSplit(s.stride, LINE_HEIGHT, keep, s.bpp);
    MulLeft(1, s.stride * LINE_HEIGHT, s.bpp);
  }

  lemma NewLineSafe(s: Screen, w: nat)
    requires Typing(s, w)
    ensures NewLine(s).Some? && Typing(NewLine(s).value, w) && NewLine(s).value.x == BORDER
    ensures NewLine(s).value.y == if s.y + 2 * LINE_HEIGHT < s.height then s.y + LINE_HEIGHT else s.y
  {
    var t := s.(y := s.y + LINE_HEIGHT, x := BORDER);
    Small(0, w);
    if t.y + LINE_HEIGHT >= t.height { ScrollSafe(t); }
  }

  /** A glyph of the font: a full raster of the fixed width. */
  ghost predicate FontGlyph(i: Input, w: nat) {
    i.Glyph? ==> i.width == w && |i.rows| == GLYPH_ROWS && forall r :: r in i.rows ==> |r| == w
  }

  lemma BackspaceSafe(s: Screen, w: nat, paint: Paint)
    requires Typing(s, w)
    ensures WriteChar(s, Backspace, paint).Some? && Typing(WriteChar(s, Backspace, paint).value, w)
  {
    if s.x > BORDER {
      CursorRetreats(s, w);
      var t := s.(x := s.x - w);
      RasterSafe(t, Blank(w), w, paint);
    }
  }

  /** Drawing a raster that fits at the cursor keeps the console safe. */
  lemma RasterSafe(t: Screen, rows: seq<seq<byte>>, w: nat, paint: Paint)
    requires Typing(t, w) && (forall r :: r in rows ==> |r| == w)
    requires t.x + w <= t.width && t.y + |rows| <= t.height
    ensures var r := DrawRaster(t, rows, paint); r.Some? && SameFrame(t, r.value) && Typing(r.value, w)
  {
    RasterInside(t, rows, w, t.x, t.y);
    DrawSafe(t, RasterCalls(rows, t.x, t.y), paint);
    TypingFrame(t, DrawRaster(t, rows, paint).value, w);
  }

  lemma TypingFrame(s: Screen, t: Screen, w: nat)
    requires Typing(s, w) && SameFrame(s, t)
    ensures Typing(t, w)
  {
  }

  lemma GlyphSafe(s: Screen, i: Input, w: nat, paint: Paint)
    requires Typing(s, w) && i.Glyph? && FontGlyph(i, w)
    ensures WriteChar(s, i, paint).Some? && Typing(WriteChar(s, i, paint).value, w)
  {
    if s.x + w >= s.width {
      NewLineSafe(s, w);
      GlyphFits(NewLine(s).value, i.rows, w, paint);
    } else {
      GlyphFits(s, i.rows, w, paint);
    }
  }

  lemma GlyphFits(t: Screen, rows: seq<seq<byte>>, w: nat, paint: Paint)
    requires Typing(t, w) && t.x + w < t.width && FontGlyph(Glyph(rows, w), w)
    ensures var r := DrawRaster(t, rows, paint);
            r.Some? && Typing(r.value.(lastWidth := w, x := r.value.x + w), w)
  {
    RasterSafe(t, rows, w, paint);
    CursorAdvances(t, DrawRaster(t, rows, paint).value, w);
  }

  lemma CursorAdvances(t: Screen, u: Screen, w: nat)
    requires Typing(t, w) && SameFrame(t, u) && t.x + w < t.width
    ensures Typing(u.(lastWidth := w, x := u.x + w), w)
  {
    ModStep(t.x - BORDER, w);
  }

  lemma CursorRetreats(s: Screen, w: nat)
    requires Typing(s, w) && s.x > BORDER
    ensures s.x >= BORDER + w && Typing(s.(x := s.x - w), w)
  {
    var k := s.x - BORDER;
    if k < w { Small(k, w); }
    ModStep(k - w, w);
  }

  lemma CharSafe(s: Screen, i: Input, w: nat, paint: Paint)
    requires Typing(s, w) && FontGlyph(i, w)
    ensures WriteChar(s, i, paint).Some? && Typing(WriteChar(s, i, paint).value, w)
  {
    match i
    case Newline => NewLineSafe(s, w);
    case Return => Small(0, w);
    case Backspace => BackspaceSafe(s, w, paint);
    case Glyph(_, _) => GlyphSafe(s, i, w, paint);
  }

  function WriteChars(s: Screen, typed: seq<Input>, paint: Paint): (r: Option<Screen>)
    decreases |typed|
  {
    if typed == [] then Some(s)
    else
      match WriteChar(s, typed[0], paint)
      case None => None
      case Some(t) => WriteChars(t, typed[1..], paint)
  }

  /** Console safety: whatever is typed, the cursor stays inside the screen on a glyph boundary, never goes below zero,
      a line always fits below it, and no pixel is written outside the buffer. */
  lemma {:induction false} TypingSafe(s: Screen, typed: seq<Input>, w: nat, paint: Paint)
    requires Typing(s, w) && forall i :: i in typed ==> FontGlyph(i, w)
    ensures WriteChars(s, typed, paint).Some? && Typing(WriteChars(s, typed, paint).value, w)
    decreases |typed|
  {
    if typed != [] {
      assert typed[0] in typed && forall i :: i in typed[1..] ==> i in typed;
      CharSafe(s, typed[0], w, paint);
      TypingSafe(WriteChar(s, typed[0], paint).value, typed[1..], w, paint);
    }
  }
}
