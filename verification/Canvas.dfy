/**
 Drawing on a framebuffer: Bresenham lines and clipped rectangles.
 */
module Canvas {
  import opened Machine
  import opened Framebuffers
  import opened Bresenham

  // ---- lines ----

  function PointAfter(x0: int, y0: int, x1: int, y1: int, n: nat): (int, int) {
    var p := PenAfter(Abs(x1 - x0), Abs(y1 - y0), n);
    (if x0 < x1 then x0 + p.i else x0 - p.i, if y0 < y1 then y0 + p.j else y0 - p.j)
  }

  /** Drawn by the first `n` rounds. */
  ghost predicate Drawn(x0: int, y0: int, x1: int, y1: int, n: nat, px: int, py: int) {
    exists k: nat :: k < n && PointAfter(x0, y0, x1, y1, k) == (px, py)
  }

  lemma DrawnNext(x0: int, y0: int, x1: int, y1: int, n: nat, px: int, py: int)
    ensures Drawn(x0, y0, x1, y1, n + 1, px, py) <==>
      Drawn(x0, y0, x1, y1, n, px, py) || PointAfter(x0, y0, x1, y1, n) == (px, py)
  {
    hide PointAfter;
  }

  method Plot(fb: Framebuffer, x: int, y: int, c: Rgba)
    requires fb.Valid()
    modifies fb.pixels
    ensures fb.PaddingKept()
    ensures forall px: nat, py: nat :: px < fb.width && py < fb.height ==>
      fb.At(px, py) == if (x, y) == (px, py) then Encode(fb.format, c) else old(fb.At(px, py))
  {
    hide Off, Pixel, Encode;
    if x >= 0 && y >= 0 {
      fb.PutPixel(x, y, c);
    }
  }

  /** The point after one more move. */
  lemma PointNext(x0: int, y0: int, x1: int, y1: int, n: nat)
    ensures var adx, ady := Abs(x1 - x0), Abs(y1 - y0);
      var q, e2 := PointAfter(x0, y0, x1, y1, n), 2 * PenAfter(adx, ady, n).err;
      PointAfter(x0, y0, x1, y1, n + 1) ==
        (if e2 + ady < 0 then q.0 else if x0 < x1 then q.0 + 1 else q.0 - 1,
         if e2 > adx then q.1 else if y0 < y1 then q.1 + 1 else q.1 - 1)
  {
    hide Abs, PenAfter;
    PenNext(Abs(x1 - x0), Abs(y1 - y0), n);
  }

  /** Coordinates between two i32 end points fit i32. */
  lemma PointInI32(x0: int, y0: int, x1: int, y1: int, n: nat)
    requires IsI32(x0) && IsI32(y0) && IsI32(x1) && IsI32(y1) && n <= Max(Abs(x1 - x0), Abs(y1 - y0))
    ensures var q := PointAfter(x0, y0, x1, y1, n); IsI32(q.0) && IsI32(q.1)
  {
    hide PenAfter;
    PenEnds(Abs(x1 - x0), Abs(y1 - y0), n);
  }

  /**
   `line`: some value leaves i32, which an overflow check traps, iff the differences do not
   meet `LineFits`. Otherwise the loop stops after exactly max(|dx|, |dy|) moves, at
   (x1, y1), having coloured the pen's points that lie on the screen and no other pixel.
   */
  method Line(fb: Framebuffer, x0: int, y0: int, x1: int, y1: int, c: Rgba) returns (overflows: bool, ghost moves: nat)
    requires fb.Valid() && IsI32(x0) && IsI32(y0) && IsI32(x1) && IsI32(y1)
    modifies fb.pixels
    ensures overflows <==> !LineFits(Abs(x1 - x0), Abs(y1 - y0))
    ensures !overflows ==> moves == Max(Abs(x1 - x0), Abs(y1 - y0)) && PointAfter(x0, y0, x1, y1, moves) == (x1, y1)
    ensures !overflows ==> fb.PaddingKept()
    ensures !overflows ==> forall px: nat, py: nat :: px < fb.width && py < fb.height ==>
      fb.At(px, py) == if Drawn(x0, y0, x1, y1, moves + 1, px, py) then Encode(fb.format, c) else old(fb.At(px, py))
  {
    hide PenAfter, PointAfter, Drawn, Off, Pixel, Encode, Abs, LineFits, StepFits;
    var x, y := x0, y0;
    var dx, dy := Abs(x1 - x0), 0 - Abs(y1 - y0);
    overflows, moves := false, 0;
    FitsExactly(dx, -dy);
    if !IsI32(dx) || !IsI32(-dy) {
      return true, 0;
    }
    var sx, sy := if x0 < x1 then 1 else -1, if y0 < y1 then 1 else -1;
    var err := dx + dy;
    StartPoint(x0, y0, x1, y1);
    ghost var ady: nat, limit := -dy, Max(Abs(x1 - x0), Abs(y1 - y0));
    while true
      invariant moves <= limit && (x, y) == PointAfter(x0, y0, x1, y1, moves)
      invariant err == PenAfter(Abs(x1 - x0), Abs(y1 - y0), moves).err
      invariant forall k :: 0 <= k < moves ==> StepFits(dx, ady, k)
      invariant fb.PaddingKept()
      invariant forall px: nat, py: nat :: px < fb.width && py < fb.height ==>
        fb.At(px, py) == if Drawn(x0, y0, x1, y1, moves, px, py) then Encode(fb.format, c) else old(fb.At(px, py))
      decreases limit - moves
    {
      Plot(fb, x, y, c);
      DrawnOne(x0, y0, x1, y1, moves);
      EndPoint(x0, y0, x1, y1, moves);
      if x == x1 && y == y1 {
        break;
      }
      var fits;
      fits, x, y, err := MovePen(x, y, err, dx, dy, sx, sy, moves);
      if !fits {
        return true, moves;
      }
      PointNext(x0, y0, x1, y1, moves);
      PointInI32(x0, y0, x1, y1, moves + 1);
      assert IsI32(x) && IsI32(y);
      moves := moves + 1;
    }
  }

  /** The checked arithmetic of one round. */
  method MovePen(x: int, y: int, err: int, dx: int, dy: int, sx: int, sy: int, ghost n: nat)
    returns (fits: bool, x': int, y': int, err': int)
    requires dx >= 0 && dy <= 0 && err == PenAfter(dx, -dy, n).err
    ensures fits <==> StepFits(dx, -dy, n)
    ensures fits ==> err' == PenAfter(dx, -dy, n + 1).err
    ensures fits ==> x' == (if 2 * err >= dy then x + sx else x) && y' == (if 2 * err <= dx then y + sy else y)
  {
    hide PenAfter;
    PenNext(dx, -dy, n);
    fits, x', y', err' := false, x, y, err;
    var e2 := 2 * err;
    if !IsI32(e2) {
      return;
    }
    if e2 >= dy {
      if !IsI32(err' + dy) {
        return;
      }
      err' := err' + dy;
      x' := x' + sx;
    }
    if e2 <= dx {
      if !IsI32(err' + dx) {
        return;
      }
      err' := err' + dx;
      y' := y' + sy;
    }
    fits := true;
  }

  lemma DrawnOne(x0: int, y0: int, x1: int, y1: int, n: nat)
    ensures forall px: nat, py: nat :: Drawn(x0, y0, x1, y1, n + 1, px, py) <==>
      Drawn(x0, y0, x1, y1, n, px, py) || PointAfter(x0, y0, x1, y1, n) == (px, py)
  {
    hide PointAfter, Drawn;
    forall px: nat, py: nat
      ensures Drawn(x0, y0, x1, y1, n + 1, px, py) <==>
        Drawn(x0, y0, x1, y1, n, px, py) || PointAfter(x0, y0, x1, y1, n) == (px, py)
    {
      DrawnNext(x0, y0, x1, y1, n, px, py);
    }
  }

  lemma StartPoint(x0: int, y0: int, x1: int, y1: int)
    ensures PointAfter(x0, y0, x1, y1, 0) == (x0, y0)
    ensures PenAfter(Abs(x1 - x0), Abs(y1 - y0), 0).err == Abs(x1 - x0) - Abs(y1 - y0)
    ensures forall px: int, py: int :: !Drawn(x0, y0, x1, y1, 0, px, py)
  {
  }

  /** The pen is at (x1, y1) after max(|dx|, |dy|) moves and at no earlier time. */
  lemma EndPoint(x0: int, y0: int, x1: int, y1: int, n: nat)
    requires n <= Max(Abs(x1 - x0), Abs(y1 - y0))
    ensures PointAfter(x0, y0, x1, y1, n) == (x1, y1) <==> n == Max(Abs(x1 - x0), Abs(y1 - y0))
  {
    hide PenAfter;
    PenEnds(Abs(x1 - x0), Abs(y1 - y0), n);
  }

  /** Every point drawn is within half a pixel of the ideal line through the end points. */
  lemma NearLine(x0: int, y0: int, x1: int, y1: int, n: nat)
    requires n <= Max(Abs(x1 - x0), Abs(y1 - y0))
    ensures var q := PointAfter(x0, y0, x1, y1, n);
      2 * Abs(Abs(q.1 - y0) * Abs(x1 - x0) - Abs(q.0 - x0) * Abs(y1 - y0)) <= Max(Abs(x1 - x0), Abs(y1 - y0))
  {
    hide PenAfter;
    PenBounded(Abs(x1 - x0), Abs(y1 - y0), n);
    DriftExact(Abs(x1 - x0), Abs(y1 - y0), n);
  }

  // ---- clipping ----

  datatype Rect = Rect(x: nat, y: nat, w: nat, h: nat)

  /** Reinterpret the low 32 bits as i32. */
  function AsI32(v: int): int {
    var u := v % 0x1_0000_0000;
    if u < 0x8000_0000 then u else u - 0x1_0000_0000
  }

  function Clip(x: int, y: int, w: u32, h: u32, sw: u32, sh: u32): Rect {
    var nx, ny := Max(x, 0), Max(y, 0);
    if nx >= sw || ny >= sh then Rect(0, 0, 0, 0)
    else
      var mw, mh := Max(AsI32(w + Min(x, 0)), 0), Max(AsI32(h + Min(y, 0)), 0);
      Rect(nx, ny, Min(mw, sw - nx), Min(mh, sh - ny))
  }

  predicate InRect(x: int, y: int, w: nat, h: nat, px: int, py: int) {
    x <= px < x + w && y <= py < y + h
  }

  /** A side still has 2^31 or more pixels right of (or below) the screen's edge, which `as i32` turns negative. */
  predicate TooLong(x: int, y: int, w: u32, h: u32) {
    var vw, vh := w + Min(x, 0), h + Min(y, 0);
    (vw >= 0x8000_0000 && vh > 0) || (vh >= 0x8000_0000 && vw > 0)
  }

  /** The clipped rectangle is the part of the rectangle on the screen. */
  ghost predicate ClipsExactly(x: int, y: int, w: u32, h: u32, sw: u32, sh: u32) {
    var r := Clip(x, y, w, h, sw, sh);
    forall px: nat, py: nat :: InRect(r.x, r.y, r.w, r.h, px, py) <==> InRect(x, y, w, h, px, py) && px < sw && py < sh
  }

  lemma AsI32Small(v: int)
    requires -0x8000_0000 <= v < 0x1_0000_0000
    ensures AsI32(v) == if v < 0x8000_0000 then v else v - 0x1_0000_0000
  {
  }

  lemma ClipExact(x: int, y: int, w: u32, h: u32, sw: u32, sh: u32)
    requires IsI32(x) && IsI32(y)
    ensures ClipsExactly(x, y, w, h, sw, sh) <==> Max(x, 0) >= sw || Max(y, 0) >= sh || !TooLong(x, y, w, h)
    ensures var r := Clip(x, y, w, h, sw, sh);
      r.x + r.w <= sw && r.y + r.h <= sh && (TooLong(x, y, w, h) ==> r.w == 0 || r.h == 0)
  {
    hide AsI32;
    AsI32Small(w + Min(x, 0));
    AsI32Small(h + Min(y, 0));
    var nx, ny := Max(x, 0), Max(y, 0);
    if nx < sw && ny < sh && TooLong(x, y, w, h) {
      assert InRect(x, y, w, h, nx, ny);
      assert !InRect(nx, ny, Clip(x, y, w, h, sw, sh).w, Clip(x, y, w, h, sw, sh).h, nx, ny);
    }
  }

  lemma VisibleFits(width: u32, height: u32, r: Rect)
    requires r.x + r.w <= width && r.y + r.h <= height
    ensures EndOf(r.x, r.w, width) == r.x + r.w && EndOf(r.y, r.h, height) == r.y + r.h
  {
  }

  /** A rectangle of width 2^31 at the origin vanishes, although it covers the screen. */
  lemma ClipLosesWide()
    ensures Clip(0, 0, 0x8000_0000, 1, 1, 1).w == 0 && InRect(0, 0, 0x8000_0000, 1, 0, 0)
    ensures !ClipsExactly(0, 0, 0x8000_0000, 1, 1, 1)
  {
    ClipExact(0, 0, 0x8000_0000, 1, 1, 1);
  }

  /** Clip, then fill: the visible part of the rectangle, or nothing when a side is too long. */
  method FillClipped(fb: Framebuffer, x: int, y: int, w: u32, h: u32, c: Rgba)
    requires fb.Valid() && IsI32(x) && IsI32(y)
    modifies fb.pixels
    ensures fb.PaddingKept()
    ensures forall px: nat, py: nat :: px < fb.width && py < fb.height ==>
      fb.At(px, py) ==
        if InRect(x, y, w, h, px, py) && !TooLong(x, y, w, h) then Encode(fb.format, c) else old(fb.At(px, py))
  {
    hide Off, Pixel, IsPixel, Clip;
    ClipExact(x, y, w, h, fb.width, fb.height);
    var r := Clip(x, y, w, h, fb.width, fb.height);
    var panics := fb.FillRect(r.x, r.y, r.w, r.h, c);
    VisibleFits(fb.width, fb.height, r);
    assert !panics;
    assert TooLong(x, y, w, h) || ClipsExactly(x, y, w, h, fb.width, fb.height);
  }
}
