/** Characters on the console: where each leaves the cursor, and which bytes of the framebuffer it changes. */
module TypedText {
  import opened Bytes
  import opened Wrappers
  import opened Codec
  import opened Display
  import opened Painting

  // ---- The cursor -----------------------------------------------------------------------------

  /** One line of 18 pixels down; on the last line the text moves up instead. */
  function Below(y: nat, height: nat): (y': nat) { if y + 36 < height then y + 18 else y }

  /** Where a character of a font of width `w` leaves the cursor at `(x, y)` of a screen of the given size. */
  function Pen(width: nat, height: nat, w: nat, x: nat, y: nat, i: Input): (at: (nat, nat))
  {
    match i
    case Newline => (BORDER, Below(y, height))
    case Return => (BORDER, y)
    case Backspace => (if BORDER < x && w <= x then x - w else x, y)
    case Glyph(_, _) => if x + w < width then (x + w, y) else (BORDER + w, Below(y, height))
  }

  function Pens(width: nat, height: nat, w: nat, x: nat, y: nat, typed: seq<Input>): (at: (nat, nat))
    decreases |typed|
  {
    if typed == [] then (x, y)
    else
      var at := Pen(width, height, w, x, y, typed[0]);
      Pens(width, height, w, at.0, at.1, typed[1..])
  }

  /** The screen is still as large, with the cursor at the given place. */
  ghost predicate LeftAt(s: Screen, r: Option<Screen>, at: (nat, nat)) {
    r.Some? && (r.value.x, r.value.y) == at && r.value.width == s.width && r.value.height == s.height
  }

  lemma CharCursor(s: Screen, i: Input, w: nat, paint: Paint)
    requires Typing(s, w) && FontGlyph(i, w)
    ensures LeftAt(s, WriteChar(s, i, paint), Pen(s.width, s.height, w, s.x, s.y, i))
  {
    match i
    case Newline => NewLineSafe(s, w);
    case Return =>
    case Backspace => BackspaceCursor(s, w, paint);
    case Glyph(rows, _) => GlyphCursor(s, rows, w, paint);
  }

  lemma BackspaceCursor(s: Screen, w: nat, paint: Paint)
    requires Typing(s, w)
    ensures LeftAt(s, WriteChar(s, Backspace, paint), (if BORDER < s.x && w <= s.x then s.x - w else s.x, s.y))
  {
    if s.x > BORDER {
      CursorRetreats(s, w);
      RasterSafe(s.(x := s.x - w), Blank(w), w, paint);
    }
  }

  /** The screen a glyph is drawn on: a line further, if this one has no room for it. */
  function Page(s: Screen, w: nat): (t: Screen)
  {
    if s.x + w >= s.width && NewLine(s).Some? then NewLine(s).value else s
  }

  lemma PageIs(s: Screen, w: nat)
    requires Typing(s, w)
    ensures var t := Page(s, w);
            && Typing(t, w) && t.x + w < t.width && t.width == s.width && t.height == s.height
            && (t.x, t.y) == (if s.x + w < s.width then (s.x, s.y) else (BORDER, Below(s.y, s.height)))
            && (s.x + w >= s.width ==> NewLine(s) == Some(t))
  {
    if s.x + w >= s.width { NewLineSafe(s, w); }
  }

  lemma PrintOnPage(s: Screen, rows: seq<seq<byte>>, w: nat, paint: Paint)
    requires Typing(s, w)
    ensures WriteChar(s, Glyph(rows, w), paint)
            == match DrawRaster(Page(s, w), rows, paint)
               case None => None
               case Some(u) => Some(u.(lastWidth := w, x := u.x + w))
  {
    PageIs(s, w);
  }

  lemma GlyphCursor(s: Screen, rows: seq<seq<byte>>, w: nat, paint: Paint)
    requires Typing(s, w) && FontGlyph(Glyph(rows, w), w)
    ensures LeftAt(s, WriteChar(s, Glyph(rows, w), paint), Pen(s.width, s.height, w, s.x, s.y, Glyph(rows, w)))
  {
    PageIs(s, w);
    RasterSafe(Page(s, w), rows, w, paint);
    PrintOnPage(s, rows, w, paint);
  }

  /** Whatever is typed, the cursor goes where the characters say. */
  lemma {:induction false} TypedCursor(s: Screen, typed: seq<Input>, w: nat, paint: Paint)
    requires Typing(s, w) && forall i :: i in typed ==> FontGlyph(i, w)
    ensures LeftAt(s, WriteChars(s, typed, paint), Pens(s.width, s.height, w, s.x, s.y, typed))
    decreases |typed|
  {
    if typed != [] {
      assert typed[0] in typed && forall i :: i in typed[1..] ==> i in typed;
      CharSafe(s, typed[0], w, paint);
      CharCursor(s, typed[0], w, paint);
      TypedCursor(WriteChar(s, typed[0], paint).value, typed[1..], w, paint);
    }
  }

  // ---- The pixels -----------------------------------------------------------------------------

  /** No pixel of the block of `w` by `h` at `(x, y)` takes byte `a`. */
  ghost predicate Outside(s: Screen, x: nat, y: nat, w: nat, h: nat, a: nat) {
    forall u: nat, v: nat :: x <= u < x + w && y <= v < y + h ==>
      !(ByteOffset(s, u, v) <= a < ByteOffset(s, u, v) + s.bpp)
  }

  ghost predicate Fits(s: Screen, rows: seq<seq<byte>>, w: nat, x: nat, y: nat) {
    Usable(s) && x + w <= s.width && y + |rows| <= s.height && forall j :: 0 <= j < |rows| ==> |rows[j]| == w
  }

  /** `m` is the buffer of `s` with the raster at `(x, y)`: column `i` of row `j` is the pixel at `(x + i, y + j)`, and
      every other byte is as it was. */
  ghost predicate Drawn(s: Screen, rows: seq<seq<byte>>, w: nat, x: nat, y: nat, m: seq<byte>, paint: Paint)
    requires Fits(s, rows, w, x, y)
  {
    && |m| == |s.buffer|
    && (forall j, i :: 0 <= j < |rows| && 0 <= i < w ==> ShownAt(s, Call(x + i, y + j, Grey(rows[j][i])), m, paint))
    && (forall a :: 0 <= a < |m| && Outside(s, x, y, w, |rows|, a) ==> m[a] == s.buffer[a])
  }

  /** The calls for a raster keep to its block, and each goes to a place of its own. */
  lemma {:induction false} RasterSpread(rows: seq<seq<byte>>, w: nat, x: nat, y: nat)
    requires forall j :: 0 <= j < |rows| ==> |rows[j]| == w
    ensures Spread(RasterCalls(rows, x, y))
    ensures forall c :: c in RasterCalls(rows, x, y) ==>
              x <= c.x < x + w && y <= c.y < y + |rows| && c.pixel.a == 255
    decreases |rows|
  {
    if rows != [] {
      RasterSpread(rows[1..], w, x, y + 1);
      SpreadJoin(RowCalls(rows[0], x, y), RasterCalls(rows[1..], x, y + 1), y);
    }
  }

  lemma SpreadJoin(row: seq<Call>, rest: seq<Call>, y: nat)
    requires Spread(row) && Spread(rest)
    requires (forall c :: c in row ==> c.y == y) && forall c :: c in rest ==> c.y > y
    ensures Spread(row + rest)
  {
    var all := row + rest;
    forall i, j | 0 <= i < j < |all| ensures all[i].x != all[j].x || all[i].y != all[j].y {
      if i < |row| <= j { assert all[i] in row && all[j] in rest; }
    }
  }

  lemma {:induction false} RasterHas(rows: seq<seq<byte>>, x: nat, y: nat, j: nat, i: nat)
    requires j < |rows| && i < |rows[j]|
    ensures Call(x + i, y + j, Grey(rows[j][i])) in RasterCalls(rows, x, y)
    decreases |rows|
  {
    if j == 0 {
      assert RowCalls(rows[0], x, y)[i] == Call(x + i, y, Grey(rows[0][i]));
    } else {
      RasterHas(rows[1..], x, y + 1, j - 1, i);
    }
  }

  lemma RasterShows(s: Screen, rows: seq<seq<byte>>, w: nat, paint: Paint)
    requires Fits(s, rows, w, s.x, s.y) && Faithful(s)
    ensures var r := DrawRaster(s, rows, paint);
            r.Some? && SameFrame(s, r.value) && Faithful(r.value) && Drawn(s, rows, w, s.x, s.y, r.value.buffer, paint)
  {
    var calls := RasterCalls(rows, s.x, s.y);
    RasterSpread(rows, w, s.x, s.y);
    assert forall k :: 0 <= k < |calls| ==> calls[k] in calls;
    assert Drawable(s, calls);
    DrawShows(s, calls, paint);
    ShownIsDrawn(s, rows, w, calls, DrawRaster(s, rows, paint).value.buffer, paint);
  }

  lemma ShownIsDrawn(s: Screen, rows: seq<seq<byte>>, w: nat, calls: seq<Call>, m: seq<byte>, paint: Paint)
    requires Fits(s, rows, w, s.x, s.y) && calls == RasterCalls(rows, s.x, s.y) && Drawable(s, calls)
    requires AllShown(s, calls, m, paint)
    ensures Drawn(s, rows, w, s.x, s.y, m, paint)
  {
    forall j, i | 0 <= j < |rows| && 0 <= i < w
      ensures ShownAt(s, Call(s.x + i, s.y + j, Grey(rows[j][i])), m, paint)
    {
      RasterHas(rows, s.x, s.y, j, i);
      var k :| 0 <= k < |calls| && calls[k] == Call(s.x + i, s.y + j, Grey(rows[j][i]));
      assert ShownAt(s, calls[k], m, paint);
    }
    RasterSpread(rows, w, s.x, s.y);
    forall a | 0 <= a < |m| && Outside(s, s.x, s.y, w, |rows|, a) ensures m[a] == s.buffer[a] {
      forall k | 0 <= k < |calls| ensures !(At(s, calls[k]) <= a < At(s, calls[k]) + s.bpp) {
        assert calls[k] in calls;
      }
      assert Untouched(s, calls, a);
    }
  }

  /** A new line changes no byte, or scrolls. */
  lemma NewLineShows(s: Screen, w: nat)
    requires Typing(s, w) && Faithful(s)
    ensures Scroll(s).Some?
    ensures var t := NewLine(s);
            && t.Some? && Faithful(t.value)
            && t.value.buffer == if s.y + 2 * LINE_HEIGHT < s.height then s.buffer else Scroll(s).value.buffer
  {
    NewLineSafe(s, w);
    ScrollSafe(s);
    var t := s.(y := s.y + LINE_HEIGHT, x := BORDER);
    assert LineBytes(t) == LineBytes(s) && KeptBytes(t) == KeptBytes(s) && Shadow(t) == Shadow(s);
  }

  /** A glyph shows its raster where the cursor was, or at the start of the next line, and changes nothing else. */
  lemma GlyphShows(s: Screen, rows: seq<seq<byte>>, w: nat, paint: Paint)
    requires Typing(s, w) && FontGlyph(Glyph(rows, w), w) && Faithful(s)
    ensures var t := Page(s, w);
            var r := WriteChar(s, Glyph(rows, w), paint);
            && r.Some? && Faithful(r.value) && Fits(t, rows, w, t.x, t.y)
            && (t.x, t.y) == (if s.x + w < s.width then (s.x, s.y) else (BORDER, Below(s.y, s.height)))
            && Drawn(t, rows, w, t.x, t.y, r.value.buffer, paint)
  {
    PageIs(s, w);
    PageFaithful(s, w);
    GlyphOnPage(Page(s, w), rows, w, paint);
    PrintOnPage(s, rows, w, paint);
  }

  lemma PageFaithful(s: Screen, w: nat)
    requires Typing(s, w) && Faithful(s)
    ensures Faithful(Page(s, w))
  {
    NewLineShows(s, w);
  }

  lemma GlyphOnPage(t: Screen, rows: seq<seq<byte>>, w: nat, paint: Paint)
    requires Typing(t, w) && FontGlyph(Glyph(rows, w), w) && Faithful(t) && t.x + w < t.width
    ensures var r := DrawRaster(t, rows, paint);
            && r.Some? && Faithful(r.value) && Fits(t, rows, w, t.x, t.y)
            && Drawn(t, rows, w, t.x, t.y, r.value.buffer, paint)
  {
    assert forall j :: 0 <= j < |rows| ==> rows[j] in rows;
    RasterShows(t, rows, w, paint);
  }

  /** Backspace blanks the character before the cursor, the full height of the line, and changes nothing else; at the
      start of a line it does nothing. */
  lemma BackspaceShows(s: Screen, w: nat, paint: Paint)
    requires Typing(s, w) && Faithful(s)
    ensures s.x == BORDER ==> WriteChar(s, Backspace, paint) == Some(s)
    ensures s.x > BORDER ==>
              var r := WriteChar(s, Backspace, paint);
              var blank := seq(18, _ => seq(w, _ => 0));
              && r.Some? && Faithful(r.value) && s.x >= w && Fits(s, blank, w, s.x - w, s.y)
              && Drawn(s, blank, w, s.x - w, s.y, r.value.buffer, paint)
  {
    if s.x > BORDER {
      CursorRetreats(s, w);
      var t := s.(x := s.x - w);
      assert Blank(w) == seq(18, _ => seq(w, _ => 0));
      RasterShows(t, Blank(w), w, paint);
      SameDrawn(s, t, Blank(w), w, t.x, t.y, DrawRaster(t, Blank(w), paint).value.buffer, paint);
    }
  }

  /** Drawing depends on the framebuffer, not on the cursor. */
  lemma SameDrawn(s: Screen, t: Screen, rows: seq<seq<byte>>, w: nat, x: nat, y: nat, m: seq<byte>, paint: Paint)
    requires Fits(t, rows, w, x, y) && t == s.(x := t.x) && Drawn(t, rows, w, x, y, m, paint)
    ensures Fits(s, rows, w, x, y) && Drawn(s, rows, w, x, y, m, paint)
  {
    assert forall u: nat, v: nat :: ByteOffset(t, u, v) == ByteOffset(s, u, v);
    forall j, i | 0 <= j < |rows| && 0 <= i < w
      ensures ShownAt(s, Call(x + i, y + j, Grey(rows[j][i])), m, paint)
    {
      assert ShownAt(t, Call(x + i, y + j, Grey(rows[j][i])), m, paint);
    }
    forall a | 0 <= a < |m| && Outside(s, x, y, w, |rows|, a) ensures m[a] == s.buffer[a] {
      assert Outside(t, x, y, w, |rows|, a);
    }
  }
}
