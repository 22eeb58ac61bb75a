/** The boot logo: the build script run-length encodes it, the kernel decodes it pixel by pixel onto the screen. */
module Codec {
  import opened Bytes
  import opened Wrappers
  import opened Arith

  datatype Pixel = Pixel(r: byte, g: byte, b: byte, a: byte)

  datatype Run = Run(count: nat, pixel: Pixel)

  const MAX_COUNT: nat := 65535

  // ---- Runs -----------------------------------------------------------------------------------

  /** The maximal runs of equal pixels. */
  function Runs(ps: seq<Pixel>): (rs: seq<Run>)
  {
    if ps == [] then [] else AddPixel(Runs(ps[..|ps| - 1]), ps[|ps| - 1])
  }

  function AddPixel(rs: seq<Run>, p: Pixel): (rs': seq<Run>)
    ensures |rs'| > 0
  {
    if rs != [] && rs[|rs| - 1].pixel == p then rs[..|rs| - 1] + [Run(rs[|rs| - 1].count + 1, p)]
    else rs + [Run(1, p)]
  }

  function Repeat(n: nat, p: Pixel): (ps: seq<Pixel>)
    ensures |ps| == n && forall i :: 0 <= i < n ==> ps[i] == p
  {
    seq(n, _ => p)
  }

  function Expand(rs: seq<Run>): (ps: seq<Pixel>)
  {
    if rs == [] then [] else Expand(rs[..|rs| - 1]) + Repeat(rs[|rs| - 1].count, rs[|rs| - 1].pixel)
  }

  /** The runs spell the pixels. */
  lemma {:induction false} RunsSpell(ps: seq<Pixel>)
    ensures Expand(Runs(ps)) == ps
  {
    if ps != [] {
      var rs := Runs(ps[..|ps| - 1]);
      RunsSpell(ps[..|ps| - 1]);
      AddPixelExpand(rs, ps[|ps| - 1]);
      calc {
        Expand(Runs(ps));
        Expand(rs) + [ps[|ps| - 1]];
        ps[..|ps| - 1] + [ps[|ps| - 1]];
        { SplitLast(ps); }
        ps;
      }
    }
  }

  /** No run is empty, and neighbours differ. */
  ghost predicate Proper(rs: seq<Run>) {
    && (forall i :: 0 <= i < |rs| ==> rs[i].count > 0)
    && (forall i :: 0 <= i < |rs| - 1 ==> rs[i].pixel != rs[i + 1].pixel)
  }

  lemma {:induction false} RunsProper(ps: seq<Pixel>)
    ensures Proper(Runs(ps))
  {
    if ps != [] {
      RunsProper(ps[..|ps| - 1]);
      AddPixelProper(Runs(ps[..|ps| - 1]), ps[|ps| - 1]);
    }
  }

  lemma AddPixelProper(rs: seq<Run>, p: Pixel)
    requires Proper(rs)
    ensures Proper(AddPixel(rs, p))
  {
  }

  lemma AddPixelExpand(rs: seq<Run>, p: Pixel)
    ensures Expand(AddPixel(rs, p)) == Expand(rs) + [p]
  {
    var rs' := AddPixel(rs, p);
    if rs != [] && rs[|rs| - 1].pixel == p {
      assert rs'[..|rs'| - 1] == rs[..|rs| - 1];
      assert Repeat(rs[|rs| - 1].count + 1, p) == Repeat(rs[|rs| - 1].count, p) + [p];
    } else {
      assert rs'[..|rs'| - 1] == rs;
      assert Repeat(1, p) == [p];
    }
  }

  // ---- The encoder ----------------------------------------------------------------------------

  function PixelBytes(p: Pixel): (bs: seq<byte>) { [p.r, p.g, p.b, p.a] }

  function RunBytes(r: Run): (bs: seq<byte>)
    ensures |bs| == 6
  {
    Encode(r.count, 2) + PixelBytes(r.pixel)
  }

  function AllBytes(rs: seq<Run>): (bs: seq<byte>)
  {
    if rs == [] then [] else AllBytes(rs[..|rs| - 1]) + RunBytes(rs[|rs| - 1])
  }

  function Header(width: nat, height: nat): (bs: seq<byte>) { Encode(width, 4) + Encode(height, 4) }

  function AllButLast(rs: seq<Run>): (r: seq<Run>) { if rs == [] then [] else rs[..|rs| - 1] }

  predicate RunsFit(rs: seq<Run>) { forall i :: 0 <= i < |rs| ==> rs[i].count <= MAX_COUNT }

  lemma {:induction false} RunsFitPrefix(ps: seq<Pixel>, n: nat)
    requires n <= |ps| && RunsFit(Runs(ps))
    ensures RunsFit(Runs(ps[..n]))
    decreases |ps|
  {
    if n < |ps| {
      var prev := ps[..|ps| - 1];
      var rs := Runs(prev);
      var rs' := Runs(ps);
      forall i | 0 <= i < |rs| ensures rs[i].count <= MAX_COUNT { assert rs[i].count <= rs'[i].count; }
      RunsFitPrefix(prev, n);
      assert prev[..n] == ps[..n];
    } else {
      assert ps[..n] == ps;
    }
  }

  /** What the loop has in hand after some pixels: `flushed` has been written, `last` and `count` are the open run. */
  ghost predicate InHand(ps: seq<Pixel>, flushed: seq<Run>, last: Pixel, count: nat) {
    if ps == [] then flushed == [] && last == Pixel(0, 0, 0, 0) && count == 0
    else count > 0 && Runs(ps) == flushed + [Run(count, last)]
  }

  /** One more pixel extends the open run or closes it. */
  lemma HandStep(ps: seq<Pixel>, p: Pixel, flushed: seq<Run>, last: Pixel, count: nat)
    requires InHand(ps, flushed, last, count)
    ensures p == last ==> InHand(ps + [p], flushed, last, count + 1)
    ensures p != last ==> InHand(ps + [p], if count > 0 then flushed + [Run(count, last)] else flushed, p, 1)
    ensures RunsFit(Runs(ps)) ==> (RunsFit(Runs(ps + [p])) <==> !(p == last && count >= MAX_COUNT))
  {
    var rs := Runs(ps);
    assert (ps + [p])[..|ps|] == ps;
    if ps != [] {
      assert rs[|rs| - 1] == Run(count, last) && rs[..|rs| - 1] == flushed;
    }
    if p == last {
      assert Runs(ps + [p]) == flushed + [Run(count + 1, p)];
      FitsSnoc(flushed, Run(count + 1, p));
    } else {
      assert Runs(ps + [p]) == rs + [Run(1, p)];
      FitsSnoc(rs, Run(1, p));
    }
    if ps != [] { FitsSnoc(flushed, Run(count, last)); }
  }

  lemma FitsSnoc(rs: seq<Run>, r: Run)
    ensures RunsFit(rs + [r]) <==> RunsFit(rs) && r.count <= MAX_COUNT
  {
    assert (rs + [r])[|rs|] == r;
    assert forall i :: 0 <= i < |rs| ==> (rs + [r])[i] == rs[i];
  }

  lemma AllBytesSnoc(rs: seq<Run>, r: Run)
    ensures AllBytes(rs + [r]) == AllBytes(rs) + RunBytes(r)
  {
    assert (rs + [r])[..|rs|] == rs;
  }

  /** The build script's loop. The counter is 16 bits wide: a longer run stops the build (None). The last run is never
      written out. */
  method EncodeImage(width: nat, height: nat, pixels: seq<Pixel>) returns (r: Option<seq<byte>>)
    ensures r == if RunsFit(Runs(pixels)) then Some(Header(width, height) + AllBytes(AllButLast(Runs(pixels))))
                 else None
  {
    var buf := Encode(width, 4);
    buf := buf + Encode(height, 4);
    var last, count := Pixel(0, 0, 0, 0), 0;
    ghost var flushed: seq<Run> := [];
    for i := 0 to |pixels|
      invariant InHand(pixels[..i], flushed, last, count)
      invariant buf == Header(width, height) + AllBytes(flushed)
      invariant RunsFit(Runs(pixels[..i]))
    {
      var pixel := pixels[i];
      HandStep(pixels[..i], pixel, flushed, last, count);
      assert pixels[..i] + [pixel] == pixels[..i + 1];
      if pixel == last {
        if count >= MAX_COUNT {
          if RunsFit(Runs(pixels)) { RunsFitPrefix(pixels, i + 1); }
          return None;
        }
        count := count + 1;
      } else {
        if count > 0 {
          AllBytesSnoc(flushed, Run(count, last));
          buf := buf + Encode(count, 2);
          buf := buf + [last.r, last.g, last.b, last.a];
          flushed := flushed + [Run(count, last)];
        }
        last := pixel;
        count := 1;
      }
    }
    assert pixels[..|pixels|] == pixels;
    assert pixels != [] ==> AllButLast(Runs(pixels)) == flushed;
    r := Some(buf);
  }

  // ---- The decoder ----------------------------------------------------------------------------

  const BORDER: nat := 1
  const SPACING: nat := 2

  datatype Cursor = Cursor(x: nat, y: nat)

  /** One `write_pixel` call. */
  datatype Call = Call(x: nat, y: nat, pixel: Pixel)

  /** The cursor after a pixel: on to the next column, or to the start of the next row. */
  function Move(c: Cursor, width: nat): (c': Cursor)
  {
    if c.x + 1 >= width + BORDER then Cursor(BORDER, c.y + 1) else Cursor(c.x + 1, c.y)
  }

  /** What drawing has done: the calls made, the cursor, and whether the bottom has been reached. */
  datatype Drawn = Drawn(calls: seq<Call>, cursor: Cursor, done: bool)

  /** The inner loop of `write_rgba`. */
  function DrawRun(n: nat, p: Pixel, c: Cursor, width: nat, height: nat): (r: Drawn)
  {
    if n == 0 then Drawn([], c, false)
    else
      var c1 := Move(c, width);
      if c1.y >= height then Drawn([Call(c.x, c.y, p)], c1, true)
      else
        var rest := DrawRun(n - 1, p, c1, width, height);
        rest.(calls := [Call(c.x, c.y, p)] + rest.calls)
  }

  /** The outer loop; None is the panic of reading past the end. */
  function DrawRuns(bytes: seq<byte>, c: Cursor, width: nat, height: nat): (r: Option<Drawn>)
    decreases |bytes|
  {
    if |bytes| < 6 then None
    else
      var d := DrawRun(Decode(bytes[..2]), Pixel(bytes[2], bytes[3], bytes[4], bytes[5]), c, width, height);
      if d.done then Some(d)
      else
        match DrawRuns(bytes[6..], d.cursor, width, height)
        case None => None
        case Some(rest) => Some(rest.(calls := d.calls + rest.calls))
  }

  /** `write_rgba`: the calls made and where the cursor ends up. */
  function DecodeImage(bytes: seq<byte>, c: Cursor): (r: Option<(seq<Call>, Cursor)>)
  {
    if |bytes| < 8 then None
    else
      match DrawRuns(bytes[8..], c, Decode(bytes[..4]), Decode(bytes[4..8]))
      case None => None
      case Some(d) => Some((d.calls, Cursor(BORDER, d.cursor.y + SPACING)))
  }

  /** The inner loop, in place: the calls, the cursor, and whether the outer loop is left. */
  method ReadRun(n: nat, p: Pixel, start: Cursor, width: nat, height: nat)
    returns (calls: seq<Call>, c: Cursor, done: bool)
    ensures Drawn(calls, c, done) == DrawRun(n, p, start, width, height)
  {
    calls, c, done := [], start, false;
    for i := 0 to n
      invariant !done
      invariant var rest := DrawRun(n - i, p, c, width, height);
                DrawRun(n, p, start, width, height) == rest.(calls := calls + rest.calls)
    {
      calls := calls + [Call(c.x, c.y, p)];
      var x, y := c.x + 1, c.y;
      if x - BORDER >= width {
        x, y := BORDER, y + 1;
      }
      c := Cursor(x, y);
      if y >= height {
        done := true;
        return;
      }
    }
  }

  /** `write_rgba` as a pass over the bytes: None when it would read past the end. */
  method ReadImage(bytes: seq<byte>, start: Cursor) returns (r: Option<(seq<Call>, Cursor)>)
    ensures r == DecodeImage(bytes, start)
  {
    if |bytes| < 8 { return None; }
    var width, height := Decode(bytes[..4]), Decode(bytes[4..8]);
    ghost var goal := DrawRuns(bytes[8..], start, width, height);
    var at, c := 8, start;
    var calls: seq<Call> := [];
    assert goal.Some? ==> calls + goal.value.calls == goal.value.calls;
    while true
      invariant 8 <= at <= |bytes|
      invariant goal == match DrawRuns(bytes[at..], c, width, height)
                        case None => None
                        case Some(d) => Some(d.(calls := calls + d.calls))
      decreases |bytes| - at
    {
      if at + 6 > |bytes| { return None; }
      ghost var rest := bytes[at..];
      assert rest[..2] == bytes[at..at + 2] && rest[6..] == bytes[at + 6..];
      var count := Decode(bytes[at..at + 2]);
      var p := Pixel(bytes[at + 2], bytes[at + 3], bytes[at + 4], bytes[at + 5]);
      var more, next, done := ReadRun(count, p, c, width, height);
      if done {
        assert goal == Some(Drawn(calls + more, next, true));
        return Some((calls + more, Cursor(BORDER, next.y + SPACING)));
      }
      assert forall d: Drawn :: calls + (more + d.calls) == calls + more + d.calls;
      at, c, calls := at + 6, next, calls + more;
    }
  }

  // ---- Where pixels land ----------------------------------------------------------------------

  /** The cursor after `k` pixels from the top left corner. */
  function Pos(k: nat, width: nat): (c: Cursor)
  {
    if k == 0 then Cursor(BORDER, BORDER) else Move(Pos(k - 1, width), width)
  }

  lemma {:induction false} PosIs(k: nat, width: nat)
    requires width > 0
    ensures Pos(k, width) == Cursor(BORDER + k % width, BORDER + k / width)
  {
    if k == 0 {
      Small(0, width);
    } else {
      PosIs(k - 1, width);
      Advance(k - 1, width);
    }
  }

  /** After `total` pixels, and not before, drawing a pixel leaves the cursor below the last row drawn. */
  ghost predicate Bottom(width: nat, height: nat, total: nat) {
    forall k :: 1 <= k ==> (Pos(k, width).y >= height <==> k >= total)
  }

  /** How many pixels are drawn before the decoder looks up: all rows but the last, and at least one pixel. */
  function Shown(width: nat, height: nat): (n: nat) { if height >= 2 then width * (height - 1) else 1 }

  lemma BottomIs(width: nat, height: nat)
    requires width > 0
    ensures Bottom(width, height, Shown(width, height))
  {
    forall k | 1 <= k ensures Pos(k, width).y >= height <==> k >= Shown(width, height) {
      PosIs(k, width);
      if height >= 2 { RowOf(k, width, height - 1); }
    }
  }

  lemma RowOf(k: nat, width: nat, rows: nat)
    requires width > 0
    ensures k / width >= rows <==> k >= width * rows
  {
    var q := k / width;
    assert width * q <= k < width * q + width;
    if q >= rows {
      MulMono(width, rows, q);
    } else {
      MulMono(width, q + 1, rows);
      assert width * (q + 1) == width * q + width;
    }
  }

  lemma MulMono(w: nat, a: nat, b: nat)
    requires a <= b
    ensures w * a <= w * b
  {
    var d := b - a;
    assert w * (a + d) == w * a + w * d;
  }

  /** Pixels `ps` drawn from position `k` on. */
  function CallsAt(k: nat, ps: seq<Pixel>, width: nat): (calls: seq<Call>)
    ensures |calls| == |ps|
    ensures forall i :: 0 <= i < |ps| ==> calls[i] == Call(Pos(k + i, width).x, Pos(k + i, width).y, ps[i])
  {
    seq(|ps|, i requires 0 <= i < |ps| => Call(Pos(k + i, width).x, Pos(k + i, width).y, ps[i]))
  }

  lemma CallsAtSplit(k: nat, ps: seq<Pixel>, qs: seq<Pixel>, width: nat)
    ensures CallsAt(k, ps + qs, width) == CallsAt(k, ps, width) + CallsAt(k + |ps|, qs, width)
  {
    forall i | 0 <= i < |ps + qs|
      ensures CallsAt(k, ps + qs, width)[i] == (CallsAt(k, ps, width) + CallsAt(k + |ps|, qs, width))[i]
    {
      if i >= |ps| { assert k + i == k + |ps| + (i - |ps|); }
    }
  }

  function Min(a: nat, b: nat): (m: nat) { if a <= b then a else b }

  lemma {:induction false} DrawRunIs(n: nat, p: Pixel, k: nat, width: nat, height: nat, total: nat)
    requires Bottom(width, height, total) && k < total
    ensures var m := Min(n, total - k);
            DrawRun(n, p, Pos(k, width), width, height)
            == Drawn(CallsAt(k, Repeat(m, p), width), Pos(k + m, width), k + n >= total)
  {
    var m := Min(n, total - k);
    if n == 0 {
      assert Repeat(0, p) == [];
    } else {
      assert Pos(k + 1, width) == Move(Pos(k, width), width);
      assert Repeat(m, p) == [p] + Repeat(m - 1, p);
      CallsAtSplit(k, [p], Repeat(m - 1, p), width);
      assert CallsAt(k, [p], width) == [Call(Pos(k, width).x, Pos(k, width).y, p)];
      if k + 1 < total {
        DrawRunIs(n - 1, p, k + 1, width, height, total);
      } else {
        assert Repeat(0, p) == [];
      }
    }
  }

  // ---- Runs, from the front -------------------------------------------------------------------

  lemma {:induction false} AllBytesCons(rs: seq<Run>)
    requires rs != []
    ensures AllBytes(rs) == RunBytes(rs[0]) + AllBytes(rs[1..])
  {
    if |rs| > 1 {
      var init := rs[..|rs| - 1];
      AllBytesCons(init);
      assert init[1..] == rs[1..][..|rs[1..]| - 1];
    }
  }

  lemma {:induction false} ExpandCons(rs: seq<Run>)
    requires rs != []
    ensures Expand(rs) == Repeat(rs[0].count, rs[0].pixel) + Expand(rs[1..])
  {
    if |rs| > 1 {
      var init := rs[..|rs| - 1];
      ExpandCons(init);
      assert init[1..] == rs[1..][..|rs[1..]| - 1];
    }
  }

  lemma ReadRunBytes(r: Run, rest: seq<byte>)
    requires r.count <= MAX_COUNT
    ensures var bytes := RunBytes(r) + rest;
            && |bytes| >= 6 && bytes[6..] == rest && Decode(bytes[..2]) == r.count
            && Pixel(bytes[2], bytes[3], bytes[4], bytes[5]) == r.pixel
  {
    var bytes := RunBytes(r) + rest;
    assert Pow256(2) == 65536;
    DecodeEncode(r.count, 2);
    assert bytes[..2] == Encode(r.count, 2);
  }

  /** Decoding draws the first run, and goes on unless that reached the bottom. */
  lemma DrawRunsCons(r: Run, rest: seq<byte>, c: Cursor, width: nat, height: nat)
    requires r.count <= MAX_COUNT
    ensures var d := DrawRun(r.count, r.pixel, c, width, height);
            var later := DrawRuns(rest, d.cursor, width, height);
            DrawRuns(RunBytes(r) + rest, c, width, height)
            == if d.done then Some(d)
               else if later == None then None
               else Some(later.value.(calls := d.calls + later.value.calls))
  {
    ReadRunBytes(r, rest);
  }

  /** What decoding `ps` from pixel `k` on comes to, if the bottom is reached after `total`. */
  function Shows(ps: seq<Pixel>, k: nat, width: nat, total: nat): (r: Option<Drawn>)
    requires k <= total
  {
    if k + |ps| < total then None else Some(Drawn(CallsAt(k, ps[..total - k], width), Pos(total, width), true))
  }

  lemma FirstRunEnds(r: Run, rest: seq<byte>, later: seq<Pixel>, k: nat, width: nat, height: nat, total: nat)
    requires r.count <= MAX_COUNT && Bottom(width, height, total) && k < total <= k + r.count
    ensures DrawRuns(RunBytes(r) + rest, Pos(k, width), width, height)
            == Shows(Repeat(r.count, r.pixel) + later, k, width, total)
  {
    DrawRunsCons(r, rest, Pos(k, width), width, height);
    DrawRunIs(r.count, r.pixel, k, width, height, total);
    assert (Repeat(r.count, r.pixel) + later)[..total - k] == Repeat(total - k, r.pixel);
  }

  lemma FirstRunGoesOn(r: Run, rest: seq<byte>, later: seq<Pixel>, k: nat, width: nat, height: nat, total: nat)
    requires r.count <= MAX_COUNT && Bottom(width, height, total) && k + r.count < total
    requires DrawRuns(rest, Pos(k + r.count, width), width, height) == Shows(later, k + r.count, width, total)
    ensures DrawRuns(RunBytes(r) + rest, Pos(k, width), width, height)
            == Shows(Repeat(r.count, r.pixel) + later, k, width, total)
  {
    DrawRunsCons(r, rest, Pos(k, width), width, height);
    DrawRunIs(r.count, r.pixel, k, width, height, total);
    if total <= k + r.count + |later| { CallsJoin(r, later, k, total, width); }
  }

  /** Decoding runs draws their pixels up to the bottom, and panics exactly if they do not reach it. */
  lemma {:induction false} DrawRunsIs(rs: seq<Run>, k: nat, width: nat, height: nat, total: nat)
    requires RunsFit(rs) && Bottom(width, height, total) && k < total
    ensures DrawRuns(AllBytes(rs), Pos(k, width), width, height) == Shows(Expand(rs), k, width, total)
    decreases |rs|
  {
    if rs != [] {
      var r, rest := rs[0], rs[1..];
      AllBytesCons(rs);
      ExpandCons(rs);
      if k + r.count >= total {
        FirstRunEnds(r, AllBytes(rest), Expand(rest), k, width, height, total);
      } else {
        DrawRunsIs(rest, k + r.count, width, height, total);
        FirstRunGoesOn(r, AllBytes(rest), Expand(rest), k, width, height, total);
      }
    }
  }

  lemma CallsJoin(r: Run, later: seq<Pixel>, k: nat, total: nat, width: nat)
    requires k + r.count < total <= k + r.count + |later|
    ensures CallsAt(k, (Repeat(r.count, r.pixel) + later)[..total - k], width)
            == CallsAt(k, Repeat(r.count, r.pixel), width) + CallsAt(k + r.count, later[..total - k - r.count], width)
  {
    TakeSplit(Repeat(r.count, r.pixel), later, total - k);
    CallsAtSplit(k, Repeat(r.count, r.pixel), later[..total - k - r.count], width);
  }

  lemma TakeSplit(a: seq<Pixel>, b: seq<Pixel>, n: nat)
    requires |a| <= n <= |a| + |b|
    ensures (a + b)[..n] == a + b[..n - |a|]
  {
  }

  // ---- Round trip -----------------------------------------------------------------------------

  lemma ReadHeader(width: nat, height: nat, body: seq<byte>)
    requires width < Pow256(4) && height < Pow256(4)
    ensures var bytes := Header(width, height) + body;
            && |bytes| >= 8 && bytes[8..] == body && Decode(bytes[..4]) == width && Decode(bytes[4..8]) == height
  {
    var bytes := Header(width, height) + body;
    DecodeEncode(width, 4);
    DecodeEncode(height, 4);
    assert bytes[..4] == Encode(width, 4) && bytes[4..8] == Encode(height, 4);
  }

  lemma {:induction false} ExpandLength(rs: seq<Run>)
    requires rs != []
    ensures |Expand(rs)| == |Expand(AllButLast(rs))| + rs[|rs| - 1].count
  {
  }

  /** The calls draw a prefix of the pixels, each in its place. */
  ghost predicate InPlace(calls: seq<Call>, pixels: seq<Pixel>, width: nat)
    requires width > 0
  {
    && |calls| <= |pixels|
    && (forall p :: 0 <= p < |calls| ==> calls[p] == Call(BORDER + p % width, BORDER + p / width, pixels[p]))
  }

  /** The logo round trip, for every image. Decoding what the encoder wrote, from the top left corner, reads past
      the end exactly if the image is empty or its last run takes up more than what is not shown: one row, or for a
      single row all but its first pixel. Otherwise it draws precisely the first `height - 1` rows (of a single row,
      one pixel), pixel `p` at column `p mod width` and row `p div width` inside the border, in order. */
  lemma RoundTrip(width: nat, height: nat, pixels: seq<Pixel>)
    requires width < Pow256(4) && height < Pow256(4) && |pixels| == width * height && RunsFit(Runs(pixels))
    ensures var rs := Runs(pixels);
            var r := DecodeImage(Header(width, height) + AllBytes(AllButLast(rs)), Cursor(BORDER, BORDER));
            && (r == None <==> rs == [] || rs[|rs| - 1].count > (if height >= 2 then width else width - 1))
            && (r.Some? ==>
                  && width > 0 && |r.value.0| == Shown(width, height)
                  && InPlace(r.value.0, pixels, width)
                  && r.value.1 == Cursor(BORDER, height + SPACING))
  {
    var rs := Runs(pixels);
    ReadHeader(width, height, AllBytes(AllButLast(rs)));
    if pixels == [] {
      assert rs == [] && AllBytes(AllButLast(rs)) == [];
    } else {
      PixelsTwoWays(width, height);
      var total := Shown(width, height);
      RunsSpell(pixels);
      ExpandLength(rs);
      BottomIs(width, height);
      DrawRunsIs(AllButLast(rs), 0, width, height, total);
      if |Expand(AllButLast(rs))| >= total {
        DrawnFirstRows(width, total, pixels, Expand(AllButLast(rs)));
        LastCursor(width, height, |pixels|);
      }
    }
  }

  /** An image with pixels has what is shown and what is not. */
  lemma PixelsTwoWays(width: nat, height: nat)
    requires width * height > 0
    ensures width > 0 && height > 0 && Shown(width, height) > 0
    ensures width * height == Shown(width, height) + (if height >= 2 then width else width - 1)
  {
    if height >= 2 {
      assert width * height == width * (height - 1) + width;
      MulMono(width, 1, height - 1);
    }
  }

  lemma DrawnFirstRows(width: nat, total: nat, pixels: seq<Pixel>, ps: seq<Pixel>)
    requires width > 0 && total <= |ps| && ps <= pixels
    ensures InPlace(CallsAt(0, ps[..total], width), pixels, width)
  {
    var calls := CallsAt(0, ps[..total], width);
    forall p | 0 <= p < |calls| ensures calls[p] == Call(BORDER + p % width, BORDER + p / width, pixels[p]) {
      PosIs(p, width);
      assert ps[..total][p] == pixels[p] && 0 + p == p;
    }
  }

  lemma LastCursor(width: nat, height: nat, count: nat)
    requires width > 0 && height > 0 && count == width * height > Shown(width, height)
    ensures Pos(Shown(width, height), width).y == height
  {
    var total := Shown(width, height);
    PosIs(total, width);
    if height >= 2 {
      assert total == (height - 1) * width + 0;
      DivModUnique(total, width, height - 1, 0);
    } else {
      Small(1, width);
    }
  }
}
