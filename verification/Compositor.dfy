/**
 The stacking compositor: layers are sorted by z and painted in order onto the monitor.
 */
module Compositor {
  import opened Machine
  import opened Framebuffers

  /** Something placed on the screen at (x, y) and depth z. */
  datatype Placed<T> = Placed(item: T, x: int, y: int, z: int)

  // ---- painting in order ----

  /** What an item shows at a screen position; `None` where it is absent or transparent. */
  type Look<!T> = (T, int, int) -> Option<seq<u8>>

  /** A layer's pixel at screen position (px, py). */
  function Shows<T>(look: Look<T>, l: Placed<T>, px: int, py: int): Option<seq<u8>> {
    look(l.item, px - l.x, py - l.y)
  }

  /** The pixel after painting `ls` from first to last over `under`. */
  function Paint<T>(look: Look<T>, ls: seq<Placed<T>>, under: seq<u8>, px: int, py: int): seq<u8> {
    if ls == [] then under
    else
      var p := Shows(look, ls[|ls| - 1], px, py);
      if p.Some? then p.value else Paint(look, ls[..|ls| - 1], under, px, py)
  }

  /** Insert behind every layer of the same or smaller z, as a stable sort does. */
  function Insert<T>(s: seq<Placed<T>>, l: Placed<T>): (r: seq<Placed<T>>)
    ensures |r| == |s| + 1
  {
    if s == [] || s[|s| - 1].z <= l.z then s + [l]
    else Insert(s[..|s| - 1], l) + [s[|s| - 1]]
  }

  /** `sort_by_key(|l| l.z)` */
  function SortByZ<T>(ls: seq<Placed<T>>): (r: seq<Placed<T>>)
    ensures |r| == |ls|
  {
    if ls == [] then [] else Insert(SortByZ(ls[..|ls| - 1]), ls[|ls| - 1])
  }

  ghost predicate Sorted<T>(s: seq<Placed<T>>) {
    forall i, j :: 0 <= i < j < |s| ==> s[i].z <= s[j].z
  }

  lemma {:induction false} InsertBelow<T>(s: seq<Placed<T>>, l: Placed<T>, z: int)
    requires l.z <= z && forall i :: 0 <= i < |s| ==> s[i].z <= z
    ensures forall i :: 0 <= i < |Insert(s, l)| ==> Insert(s, l)[i].z <= z
  {
    if s != [] && s[|s| - 1].z > l.z {
      InsertBelow(s[..|s| - 1], l, z);
    }
  }

  lemma {:induction false} InsertSorted<T>(s: seq<Placed<T>>, l: Placed<T>)
    requires Sorted(s)
    ensures Sorted(Insert(s, l))
  {
    if s != [] && s[|s| - 1].z > l.z {
      var n := |s| - 1;
      InsertSorted(s[..n], l);
      InsertBelow(s[..n], l, s[n].z);
    }
  }

  lemma {:induction false} InsertPermutes<T>(s: seq<Placed<T>>, l: Placed<T>)
    ensures multiset(Insert(s, l)) == multiset(s) + multiset{l}
  {
    if s != [] && s[|s| - 1].z > l.z {
      InsertPermutes(s[..|s| - 1], l);
      assert s == s[..|s| - 1] + [s[|s| - 1]];
    }
  }

  /** The sort is a sorted permutation. */
  lemma {:induction false} SortSorts<T>(ls: seq<Placed<T>>)
    ensures Sorted(SortByZ(ls)) && multiset(SortByZ(ls)) == multiset(ls)
  {
    if ls != [] {
      var n := |ls| - 1;
      SortSorts(ls[..n]);
      InsertSorted(SortByZ(ls[..n]), ls[n]);
      InsertPermutes(SortByZ(ls[..n]), ls[n]);
      assert ls == ls[..n] + [ls[n]];
    }
  }

  /** z of the layer that shows on top of a painted sequence. */
  function TopZ<T>(look: Look<T>, s: seq<Placed<T>>, px: int, py: int): Option<int> {
    if s == [] then None
    else if Shows(look, s[|s| - 1], px, py).Some? then Some(s[|s| - 1].z)
    else TopZ(look, s[..|s| - 1], px, py)
  }

  lemma {:induction false} InsertPaints<T>(look: Look<T>, s: seq<Placed<T>>, l: Placed<T>, under: seq<u8>, px: int, py: int)
    requires Sorted(s)
    ensures var wins := Shows(look, l, px, py).Some? && (TopZ(look, s, px, py).None? || TopZ(look, s, px, py).value <= l.z);
      && Paint(look, Insert(s, l), under, px, py) ==
           (if wins then Shows(look, l, px, py).value else Paint(look, s, under, px, py))
      && TopZ(look, Insert(s, l), px, py) == if wins then Some(l.z) else TopZ(look, s, px, py)
  {
    var n := |s| - 1;
    if s == [] || s[n].z <= l.z {
      assert (s + [l])[..|s|] == s;
      assert forall i :: 0 <= i < |s| ==> s[i].z <= l.z;
      TopBelow(look, s, px, py, l.z);
    } else {
      var r := Insert(s[..n], l);
      assert (r + [s[n]])[..|r|] == r;
      InsertPaints(look, s[..n], l, under, px, py);
    }
  }

  lemma {:induction false} TopBelow<T>(look: Look<T>, s: seq<Placed<T>>, px: int, py: int, z: int)
    requires forall i :: 0 <= i < |s| ==> s[i].z <= z
    ensures TopZ(look, s, px, py).Some? ==> TopZ(look, s, px, py).value <= z
  {
    if s != [] { TopBelow(look, s[..|s| - 1], px, py, z); }
  }

  // ---- which layer wins ----

  /** Layer `t` shows here and no other showing layer is higher, or as high and later. */
  ghost predicate IsTop<T>(look: Look<T>, ls: seq<Placed<T>>, px: int, py: int, t: nat) {
    && t < |ls| && Shows(look, ls[t], px, py).Some?
    && forall j :: 0 <= j < |ls| && j != t && Shows(look, ls[j], px, py).Some? ==>
      ls[j].z < ls[t].z || (ls[j].z == ls[t].z && j < t)
  }

  ghost predicate NoneShows<T>(look: Look<T>, ls: seq<Placed<T>>, px: int, py: int) {
    forall j :: 0 <= j < |ls| ==> Shows(look, ls[j], px, py).None?
  }

  /** Index of the winning layer. */
  function TopOf<T>(look: Look<T>, ls: seq<Placed<T>>, px: int, py: int): (t: Option<nat>)
    ensures t.Some? ==> t.value < |ls|
  {
    if ls == [] then None
    else
      var n := |ls| - 1;
      var prev := TopOf(look, ls[..n], px, py);
      if Shows(look, ls[n], px, py).Some? && (prev.None? || ls[prev.value].z <= ls[n].z) then Some(n) else prev
  }

  /** The pixel of the winning layer, if any. */
  function TopPixel<T>(look: Look<T>, ls: seq<Placed<T>>, px: int, py: int): Option<seq<u8>> {
    var t := TopOf(look, ls, px, py);
    if t.None? then None else Shows(look, ls[t.value], px, py)
  }

  lemma {:induction false} TopOfIsTop<T>(look: Look<T>, ls: seq<Placed<T>>, px: int, py: int)
    ensures var t := TopOf(look, ls, px, py);
      if t.Some? then IsTop(look, ls, px, py, t.value) else NoneShows(look, ls, px, py)
  {
    if ls != [] {
      TopOfIsTop(look, ls[..|ls| - 1], px, py);
    }
  }

  /**
   Painting the sorted layers shows the layer with the highest z, the latest pushed
   among equals, and what was underneath where no layer shows.
   */
  lemma {:induction false} PaintShowsTop<T>(look: Look<T>, ls: seq<Placed<T>>, under: seq<u8>, px: int, py: int)
    ensures var t := TopOf(look, ls, px, py);
      && (t.Some? ==> Shows(look, ls[t.value], px, py).Some?)
      && TopZ(look, SortByZ(ls), px, py) == (if t.None? then None else Some(ls[t.value].z))
      && Paint(look, SortByZ(ls), under, px, py) == if t.None? then under else Shows(look, ls[t.value], px, py).value
  {
    hide Insert, Sorted, Shows;
    if ls != [] {
      var n := |ls| - 1;
      PaintShowsTop(look, ls[..n], under, px, py);
      SortSorts(ls[..n]);
      InsertPaints(look, SortByZ(ls[..n]), ls[n], under, px, py);
    }
  }

  // ---- surfaces ----

  /** The bytes of a framebuffer at the time of a render. */
  datatype Surface = Surface(width: nat, height: nat, stride: nat, bytes: seq<u8>)

  /** Opaque pixel of a surface at its own coordinates. */
  function Opaque(s: Surface, x: int, y: int): Option<seq<u8>>
    requires Shaped(s.width, s.height, s.stride, |s.bytes|)
  {
    if 0 <= x < s.width && 0 <= y < s.height then
      OffInside(s.width, s.height, s.stride, |s.bytes|, x, y);
      var p := Pixel(s.bytes, s.stride, x, y);
      if p[3] != 0 then Some(p) else None
    else None
  }

  ghost function Snap(fb: Framebuffer): Surface
    reads fb.pixels
  {
    Surface(fb.width, fb.height, fb.stride, fb.pixels[..])
  }

  /** Screen coordinates of the layer stay within i32. */
  ghost predicate InI32(fb: Framebuffer, x: int, y: int) {
    -0x8000_0000 <= x && x + fb.width <= 0x7fff_ffff && -0x8000_0000 <= y && y + fb.height <= 0x7fff_ffff
  }

  method Blit(dst: Framebuffer, src: Framebuffer, x: int, y: int)
    requires dst.Valid() && src.Valid() && dst.pixels != src.pixels && InI32(src, x, y)
    modifies dst.pixels
    ensures dst.PaddingKept()
    ensures forall px: nat, py: nat :: px < dst.width && py < dst.height ==>
      var p := Opaque(Snap(src), px - x, py - y);
      dst.At(px, py) == if p.Some? then p.value else old(dst.At(px, py))
  {
    hide Off, Pixel, IsPixel, Opaque;
    OutsideClear(Snap(src));
    for sy := 0 to src.height
      invariant dst.PaddingKept()
      invariant forall px: nat, py: nat :: px < dst.width && py < dst.height ==>
        dst.At(px, py) == Blended(Snap(src), x, y, px, py, py - y < sy, old(dst.At(px, py)))
    {
      var dy := y + sy;
      if 0 <= dy < dst.height {
        BlitRow(dst, src, x, y, sy);
      }
    }
  }

  /** The source pixel once its row and column have been reached. */
  ghost function Blended(s: Surface, x: int, y: int, px: int, py: int, reached: bool, under: seq<u8>): seq<u8>
    requires Shaped(s.width, s.height, s.stride, |s.bytes|)
  {
    var p := Opaque(s, px - x, py - y);
    if reached && p.Some? then p.value else under
  }

  lemma OutsideClear(s: Surface)
    requires Shaped(s.width, s.height, s.stride, |s.bytes|)
    ensures forall x, y :: Opaque(s, x, y).Some? ==> 0 <= x < s.width && 0 <= y < s.height
  {
  }

  method BlitRow(dst: Framebuffer, src: Framebuffer, x: int, y: int, sy: nat)
    requires dst.Valid() && src.Valid() && dst.pixels != src.pixels
    requires sy < src.height && 0 <= y + sy < dst.height
    modifies dst.pixels
    ensures dst.PaddingKept()
    ensures forall px: nat, py: nat :: px < dst.width && py < dst.height ==>
      dst.At(px, py) == Blended(Snap(src), x, y, px, py, py == y + sy, old(dst.At(px, py)))
  {
    hide Off, Pixel, IsPixel;
    for sx := 0 to src.width
      invariant dst.PaddingKept()
      invariant forall px: nat, py: nat :: px < dst.width && py < dst.height ==>
        dst.At(px, py) == Blended(Snap(src), x, y, px, py, py == y + sy && px - x < sx, old(dst.At(px, py)))
    {
      var dx := x + sx;
      if 0 <= dx < dst.width {
        OffInside(src.width, src.height, src.stride, src.pixels.Length, sx, sy);
        OffValue(src.stride, sx, sy);
        var so := sy * src.stride + sx * 4;
        SourceAlpha(src, sx, sy);
        if src.pixels[so + 3] != 0 {
          dst.Store(dx, y + sy, src.pixels[so .. so + 4]);
        }
      }
    }
  }

  lemma SourceAlpha(src: Framebuffer, sx: nat, sy: nat)
    requires src.Valid() && sx < src.width && sy < src.height
    ensures Off(src.stride, sx, sy) + 4 <= src.pixels.Length
    ensures var so := Off(src.stride, sx, sy);
      Opaque(Snap(src), sx, sy) == if src.pixels[so + 3] != 0 then Some(src.pixels[so .. so + 4]) else None
  {
    OffInside(src.width, src.height, src.stride, src.pixels.Length, sx, sy);
  }

  // ---- render ----

  lemma PaintNothing<T>(look: Look<T>, under: seq<u8>)
    ensures forall px: int, py: int :: Paint(look, [], under, px, py) == under
  {
  }

  lemma PaintNext<T>(look: Look<T>, s: seq<Placed<T>>, i: nat, under: seq<u8>)
    requires i < |s|
    ensures forall px: int, py: int ::
      Paint(look, s[..i + 1], under, px, py) == Over(look(s[i].item, px - s[i].x, py - s[i].y), Paint(look, s[..i], under, px, py))
  {
    var t := s[..i + 1];
    assert t[|t| - 1] == s[i] && t[..|t| - 1] == s[..i];
  }

  function Over(p: Option<seq<u8>>, under: seq<u8>): seq<u8> {
    if p.Some? then p.value else under
  }

  lemma SortMember<T>(ls: seq<Placed<T>>, i: nat) returns (k: nat)
    requires i < |ls|
    ensures k < |ls| && SortByZ(ls)[i] == ls[k]
  {
    SortSorts(ls);
    assert SortByZ(ls)[i] in multiset(SortByZ(ls));
    assert SortByZ(ls)[i] in ls;
    k :| 0 <= k < |ls| && ls[k] == SortByZ(ls)[i];
  }

  type Layer = Placed<Framebuffer>

  class Screen {
    const target: Framebuffer
    var layers: seq<Layer>
    var background: Rgba

    constructor (target: Framebuffer)
      ensures this.target == target && layers == [] && background == Rgba(0x10, 0x18, 0x24, 0xff)
    {
      this.target, layers, background := target, [], Rgba(0x10, 0x18, 0x24, 0xff);
    }

    method PushLayer(l: Layer)
      modifies `layers
      ensures layers == old(layers) + [l]
    {
      layers := layers + [l];
    }

    ghost predicate Drawable()
      reads this
    {
      && target.Valid()
      && forall i :: 0 <= i < |layers| ==>
        layers[i].item.Valid() && layers[i].item.pixels != target.pixels && InI32(layers[i].item, layers[i].x, layers[i].y)
    }

    /** Each layer's opaque pixels, as they are now. */
    ghost function LookNow(): Look<Framebuffer>
      reads set i | 0 <= i < |layers| :: layers[i].item.pixels
      reads this
    {
      var snaps := map i | 0 <= i < |layers| :: layers[i].item := Snap(layers[i].item);
      (fb: Framebuffer, x: int, y: int) =>
        if fb in snaps && Shaped(snaps[fb].width, snaps[fb].height, snaps[fb].stride, |snaps[fb].bytes|)
        then Opaque(snaps[fb], x, y) else None
    }

    /** Every pixel shows the top layer there, or the background; padding is untouched. */
    method Render()
      requires Drawable()
      modifies target.pixels
      ensures target.PaddingKept()
      ensures forall px: nat, py: nat :: px < target.width && py < target.height ==>
        target.At(px, py) == Over(TopPixel(old(LookNow()), layers, px, py), Encode(target.format, background))
    {
      hide Paint, SortByZ, Opaque, Off, Pixel, IsPixel, LookNow;
      var sorted := SortByZ(layers);
      ghost var look, bg := LookNow(), Encode(target.format, background);
      target.Clear(background);
      PaintNothing(look, bg);
      assert sorted[..0] == [];
      for i := 0 to |sorted|
        invariant target.PaddingKept()
        invariant forall px: nat, py: nat :: px < target.width && py < target.height ==>
          target.At(px, py) == Paint(look, sorted[..i], bg, px, py)
      {
        var l := sorted[i];
        ghost var k := SortMember(layers, i);
        LookShows(k);
        assert LookNow() == look;
        Blit(target, l.item, l.x, l.y);
        PaintNext(look, sorted, i, bg);
      }
      assert sorted[..|sorted|] == sorted;
      forall px: nat, py: nat | px < target.width && py < target.height
        ensures Paint(look, sorted, bg, px, py) == Over(TopPixel(look, layers, px, py), bg)
      {
        PaintShowsTop(look, layers, bg, px, py);
      }
    }

    lemma LookShows(k: nat)
      requires Drawable() && k < |layers|
      ensures forall x: int, y: int :: LookNow()(layers[k].item, x, y) == Opaque(Snap(layers[k].item), x, y)
    {
      assert layers[k].item.Valid();
    }
  }
}
