/** `RectT`, `ColorRGBA_UChar` and the pixel buffer `ImageRGBA_UChar` of
    `util_stb.hpp`: a flat, row-major vector of colours. */
module StbImage {
  import opened Bytes
  import opened StdMath

  /** `RectT<int>`: a corner and a size. */
  datatype Rect = Rect(x: int, y: int, w: int, h: int)
  {
    /** `min_x`: the left edge, never right of the right edge when the
        width is not negative. */
    function MinX(): (r: int)
      ensures w >= 0 ==> r <= x + w
    { x }

    /** `max_x`: the right edge, never left of the left edge when the
        width is not negative. */
    function MaxX(): (r: int)
      ensures w >= 0 ==> x <= r
    { x + w }

    /** `min_y`: the top edge. */
    function MinY(): (r: int)
      ensures h >= 0 ==> r <= y + h
    { y }

    /** `max_y`: the bottom edge. */
    function MaxY(): (r: int)
      ensures h >= 0 ==> y <= r
    { y + h }

    /** `is_inside_rect`: `in_range` on both axes, so all four edges are
        inside. */
    function IsInsideRect(px: int, py: int): (r: bool)
      ensures r <==> MinX() <= px <= MaxX() && MinY() <= py <= MaxY()
    {
      if !InRange(px, x, x + w) then false
      else if !InRange(py, y, y + h) then false
      else true
    }

    /** `operator==`: field by field. */
    function Equals(other: Rect): (r: bool)
      ensures r <==> this == other
    {
      x == other.x && y == other.y && w == other.w && h == other.h
    }

    /** `operator!=`: the negation of `operator==`. */
    function NotEquals(other: Rect): (r: bool)
      ensures r <==> this != other
    {
      !Equals(other)
    }
  }

  /** `ColorRGBA_UChar`; a default-constructed colour is all zero. */
  datatype Color = Color(r: Byte, g: Byte, b: Byte, a: Byte)

  const Transparent := Color(0, 0, 0, 0)

  /** `ColorRGBA_UChar::operator==`: all four channels. */
  function ColorEquals(c: Color, other: Color): (r: bool)
    ensures r <==> c == other
  {
    c.r == other.r && c.g == other.g && c.b == other.b && c.a == other.a
  }

  /** `get_pixel(x, y)` addresses `pixels[y * w + x]`. */
  function Idx(w: nat, h: nat, x: nat, y: nat): (i: nat)
    requires x < w && y < h
    ensures i < w * h
  {
    IdxBound(w, h, x, y);
    y * w + x
  }

  lemma IdxBound(w: nat, h: nat, x: nat, y: nat)
    requires x < w && y < h
    ensures y * w + x < w * h
  {
    assert y * w + x < y * w + w == (y + 1) * w;
    assert (y + 1) * w <= h * w;
  }

  /** Distinct pixels live at distinct indices. */
  lemma IdxInjective(w: nat, h: nat, x: nat, y: nat, x': nat, y': nat)
    requires x < w && y < h && x' < w && y' < h
    requires Idx(w, h, x, y) == Idx(w, h, x', y')
    ensures x == x' && y == y'
  {
    MulMonotone(y + 1, y', w);
    MulMonotone(y' + 1, y, w);
    assert (y + 1) * w == y * w + w && (y' + 1) * w == y' * w + w;
  }

  lemma MulMonotone(a: int, b: int, w: nat)
    ensures a <= b ==> a * w <= b * w
  {
    if a <= b {
      assert b * w == a * w + (b - a) * w;
    }
  }

  /** Every index of a `w` by `h` buffer is the address of one pixel. */
  lemma IdxOnto(w: nat, h: nat, i: nat)
    requires i < w * h
    ensures w > 0 && i % w < w && i / w < h && Idx(w, h, i % w, i / w) == i
  {
  }

  /** `std::vector::resize(n)`: keeps the first `n` elements and appends
      default colours when it grows. */
  function Resized(s: seq<Color>, n: nat): (r: seq<Color>)
    ensures |r| == n
    ensures forall i :: 0 <= i < n && i < |s| ==> r[i] == s[i]
    ensures forall i :: |s| <= i < n ==> r[i] == Transparent
  {
    if n <= |s| then s[..n] else s + seq(n - |s|, _ => Transparent)
  }

  /** `q` is `p` upside down: row `y` of one is row `h - 1 - y` of the other. */
  ghost predicate IsFlipOf(q: seq<Color>, p: seq<Color>, w: nat, h: nat)
  {
    |q| == |p| == w * h
    && forall x, y :: 0 <= x < w && 0 <= y < h ==> q[Idx(w, h, x, y)] == p[Idx(w, h, x, h - 1 - y)]
  }

  /** The flip is determined pixel by pixel. */
  lemma FlipUnique(q: seq<Color>, q': seq<Color>, p: seq<Color>, w: nat, h: nat)
    requires IsFlipOf(q, p, w, h) && IsFlipOf(q', p, w, h)
    ensures q == q'
  {
    forall i | 0 <= i < |q|
      ensures q[i] == q'[i]
    {
      IdxOnto(w, h, i);
      var x, y := i % w, i / w;
      assert q[Idx(w, h, x, y)] == p[Idx(w, h, x, h - 1 - y)] == q'[Idx(w, h, x, y)];
    }
  }

  /** `flip_vertical` twice is the identity. */
  lemma FlipTwice(q: seq<Color>, p: seq<Color>, s: seq<Color>, w: nat, h: nat)
    requires IsFlipOf(q, p, w, h) && IsFlipOf(s, q, w, h)
    ensures s == p
  {
    forall i | 0 <= i < |s|
      ensures s[i] == p[i]
    {
      IdxOnto(w, h, i);
      var x, y := i % w, i / w;
      assert s[Idx(w, h, x, y)] == q[Idx(w, h, x, h - 1 - y)];
      assert q[Idx(w, h, x, h - 1 - y)] == p[Idx(w, h, x, h - 1 - (h - 1 - y))];
    }
  }

  /** With an odd height the middle row stays where it is. */
  lemma FlipKeepsMiddleRow(q: seq<Color>, p: seq<Color>, w: nat, h: nat, x: nat)
    requires IsFlipOf(q, p, w, h) && h % 2 == 1 && x < w
    ensures q[Idx(w, h, x, h / 2)] == p[Idx(w, h, x, h / 2)]
  {
    assert h - 1 - h / 2 == h / 2;
  }

  /** `q` is `q0` with `p`, a `w` by `h` image, pasted with its corner at
      (`px`, `py`) and cut off at the right and bottom edges. */
  ghost predicate IsPasteOf(q: seq<Color>, q0: seq<Color>, ow: nat, oh: nat, p: seq<Color>, w: nat, h: nat, px: nat, py: nat)
    requires |p| == w * h
  {
    |q| == |q0| == ow * oh
    && forall x, y :: 0 <= x < ow && 0 <= y < oh ==>
         q[Idx(ow, oh, x, y)] == if px <= x < px + w && py <= y < py + h then p[Idx(w, h, x - px, y - py)] else q0[Idx(ow, oh, x, y)]
  }

  /** `ImageRGBA_UChar`. */
  class Image {
    var w: int
    var h: int
    var pixels: seq<Color>

    /** The buffer holds one colour per pixel, as after `resize`. */
    ghost predicate Valid()
      reads this
    {
      0 <= w && 0 <= h && |pixels| == w * h
    }

    /** An empty image. */
    constructor()
      ensures Valid() && w == 0 && h == 0 && pixels == []
    {
      w, h, pixels := 0, 0, [];
    }

    /** `resize`: sets the size and resizes the vector to
        `new_width * new_height`, which keeps a prefix of the old colours
        rather than the old picture. */
    method Resize(newWidth: Uint, newHeight: Uint)
      requires newWidth < 0x8000_0000 && newHeight < 0x8000_0000
      requires newWidth * newHeight < 0x1_0000_0000
      modifies this
      ensures Valid() && w == newWidth && h == newHeight
      ensures pixels == Resized(old(pixels), newWidth * newHeight)
    {
      w, h := newWidth, newHeight;
      var n := newWidth * newHeight;
      if n <= |pixels| {
        pixels := pixels[..n];
      } else {
        pixels := pixels + seq(n - |pixels|, _ => Transparent);
      }
    }

    /** `*get_pixel(x, y)`: the colour stored for that pixel. */
    function GetPixel(x: nat, y: nat): (c: Color)
      reads this
      requires Valid() && x < w && y < h
      ensures c in pixels
    {
      pixels[Idx(w, h, x, y)]
    }

    /** `fill`: every pixel becomes `newColor`. */
    method Fill(newColor: Color)
      modifies this
      ensures w == old(w) && h == old(h)
      ensures |pixels| == |old(pixels)|
      ensures forall i :: 0 <= i < |pixels| ==> pixels[i] == newColor
      ensures old(Valid()) ==> Valid() && forall x: nat, y: nat :: x < w && y < h ==> GetPixel(x, y) == newColor
    {
      for i := 0 to |pixels|
        invariant w == old(w) && h == old(h) && |pixels| == |old(pixels)|
        invariant forall j :: 0 <= j < i ==> pixels[j] == newColor
      {
        pixels := pixels[i := newColor];
      }
    }

    /** `flip_vertical`: column by column, swaps row `y` with row
        `h - y - 1` for the top half of the rows. */
    method FlipVertical()
      requires Valid()
      modifies this
      ensures Valid() && w == old(w) && h == old(h)
      ensures IsFlipOf(pixels, old(pixels), w, h)
      ensures forall x: nat, y: nat :: x < w && y < h ==> GetPixel(x, y) == old(GetPixel(x, h - 1 - y))
    {
      var x := 0;
      while x < w
        invariant 0 <= x <= w && Valid() && w == old(w) && h == old(h)
        invariant |pixels| == |old(pixels)|
        invariant forall c, r :: 0 <= c < w && 0 <= r < h ==>
          pixels[Idx(w, h, c, r)] == old(pixels)[Idx(w, h, c, if c < x then h - 1 - r else r)]
      {
        FlipColumn(x);
        x := x + 1;
      }
    }

    /** `copy_to_image`: pastes this image into `other` with its corner at
        (`x`, `y`), column by column, clipped to `other`'s right and bottom
        edges. */
    method CopyToImage(other: Image, x: int, y: int)
      requires Valid() && other.Valid() && other != this && x >= 0 && y >= 0
      modifies other
      ensures other.Valid() && other.w == old(other.w) && other.h == old(other.h)
      ensures IsPasteOf(other.pixels, old(other.pixels), other.w, other.h, pixels, w, h, x, y)
    {
      var copyMaxX := if other.w - x < w then other.w - x else w;
      var copyMaxY := if other.h - y < h then other.h - y else h;
      ghost var cy := if copyMaxY < 0 then 0 else copyMaxY;
      ghost var q0 := other.pixels;
      var x2 := 0;
      while x2 < copyMaxX
        invariant 0 <= x2 && (x2 == 0 || x2 <= copyMaxX)
        invariant other.Valid() && other.w == old(other.w) && other.h == old(other.h)
        invariant Pasting(other.pixels, q0, other.w, other.h, pixels, w, h, x, y, cy, x2, 0)
      {
        CopyColumn(other, x, y, x2, copyMaxY, cy, q0);
        x2 := x2 + 1;
      }
      PastingDone(other.pixels, q0, other.w, other.h, pixels, w, h, x, y, cy, x2);
    }

    /** The inner loop of `copy_to_image` for column `x2`. */
    method CopyColumn(other: Image, x: nat, y: nat, x2: nat, copyMaxY: int, ghost cy: nat, ghost q0: seq<Color>)
      requires Valid() && other.Valid() && other != this
      requires x2 < w && x + x2 < other.w
      requires copyMaxY <= other.h - y && copyMaxY <= h && cy == if copyMaxY < 0 then 0 else copyMaxY
      requires Pasting(other.pixels, q0, other.w, other.h, pixels, w, h, x, y, cy, x2, 0)
      modifies other
      ensures other.Valid() && other.w == old(other.w) && other.h == old(other.h)
      ensures Pasting(other.pixels, q0, other.w, other.h, pixels, w, h, x, y, cy, x2 + 1, 0)
    {
      var y2 := 0;
      while y2 < copyMaxY
        invariant 0 <= y2 <= cy
        invariant other.Valid() && other.w == old(other.w) && other.h == old(other.h)
        invariant Pasting(other.pixels, q0, other.w, other.h, pixels, w, h, x, y, cy, x2, y2)
      {
        ghost var q1 := other.pixels;
        other.pixels := other.pixels[Idx(other.w, other.h, x2 + x, y2 + y) := pixels[Idx(w, h, x2, y2)]];
        PasteStep(q1, other.pixels, q0, other.w, other.h, pixels, w, h, x, y, cy, x2, y2);
        y2 := y2 + 1;
      }
      NextColumn(other.pixels, q0, other.w, other.h, pixels, w, h, x, y, cy, x2);
    }

    /** The inner loop of `flip_vertical` for column `x`. */
    method FlipColumn(x: nat)
      requires Valid() && x < w
      modifies this
      ensures Valid() && w == old(w) && h == old(h)
      ensures forall c, r :: 0 <= c < w && 0 <= r < h ==>
        pixels[Idx(w, h, c, r)] == old(pixels)[Idx(w, h, c, if c == x then h - 1 - r else r)]
    {
      ghost var p0 := pixels;
      for y := 0 to h / 2
        invariant Valid() && w == old(w) && h == old(h)
        invariant ColumnPartlyFlipped(pixels, p0, w, h, x, y)
      {
        var top, bottom := Idx(w, h, x, y), Idx(w, h, x, h - y - 1);
        ghost var p1 := pixels;
        var tmp := pixels[top];
        pixels := pixels[top := pixels[bottom]];
        pixels := pixels[bottom := tmp];
        SwapRows(p1, pixels, p0, w, h, x, y);
      }
      ColumnFlipped(pixels, p0, w, h, x);
    }
  }

  /** Column `x` of `p` has its top `k` and bottom `k` rows exchanged
      with respect to `p0`; every other pixel is where it was. */
  ghost predicate ColumnPartlyFlipped(p: seq<Color>, p0: seq<Color>, w: nat, h: nat, x: nat, k: nat)
  {
    |p| == w * h && |p0| == w * h
    && forall c, r :: 0 <= c < w && 0 <= r < h ==>
         p[Idx(w, h, c, r)] == p0[Idx(w, h, c, if c == x && (r < k || h - k <= r) then h - 1 - r else r)]
  }

  /** One swap of the inner loop of `flip_vertical`. */
  lemma SwapRows(p1: seq<Color>, p2: seq<Color>, p0: seq<Color>, w: nat, h: nat, x: nat, y: nat)
    requires x < w && y < h / 2 && ColumnPartlyFlipped(p1, p0, w, h, x, y)
    requires p2 == p1[Idx(w, h, x, y) := p1[Idx(w, h, x, h - y - 1)]][Idx(w, h, x, h - y - 1) := p1[Idx(w, h, x, y)]]
    ensures ColumnPartlyFlipped(p2, p0, w, h, x, y + 1)
  {
    var top, bottom := Idx(w, h, x, y), Idx(w, h, x, h - y - 1);
    forall c, r | 0 <= c < w && 0 <= r < h
      ensures p2[Idx(w, h, c, r)] == p0[Idx(w, h, c, if c == x && (r < y + 1 || h - (y + 1) <= r) then h - 1 - r else r)]
    {
      var i := Idx(w, h, c, r);
      if i == top {
        IdxInjective(w, h, c, r, x, y);
      } else if i == bottom {
        IdxInjective(w, h, c, r, x, h - y - 1);
      } else {
        assert p2[i] == p1[i];
        assert !(c == x && (r == y || r == h - y - 1));
      }
    }
  }

  /** After the top half of the rows, the whole column is upside down: a
      middle row, if any, is its own mirror image. */
  lemma ColumnFlipped(p: seq<Color>, p0: seq<Color>, w: nat, h: nat, x: nat)
    requires ColumnPartlyFlipped(p, p0, w, h, x, h / 2)
    ensures forall c, r :: 0 <= c < w && 0 <= r < h ==>
      p[Idx(w, h, c, r)] == p0[Idx(w, h, c, if c == x then h - 1 - r else r)]
  {
    forall c, r | 0 <= c < w && 0 <= r < h
      ensures p[Idx(w, h, c, r)] == p0[Idx(w, h, c, if c == x then h - 1 - r else r)]
    {
      if c == x && !(r < h / 2 || h - h / 2 <= r) {
        assert h - 1 - r == r;
      }
    }
  }

  /** `q` is `q0` with the first `cols` columns of the clipped region
      pasted, and the first `k` rows of the next one. */
  ghost predicate Pasting(q: seq<Color>, q0: seq<Color>, ow: nat, oh: nat, p: seq<Color>, w: nat, h: nat,
                          px: nat, py: nat, cy: nat, cols: nat, k: nat)
  {
    |q| == ow * oh && |q0| == ow * oh && |p| == w * h && cy <= h && k <= cy
    && cols <= w && (k > 0 ==> cols < w)
    && forall c, r :: 0 <= c < ow && 0 <= r < oh ==>
         q[Idx(ow, oh, c, r)] ==
           if py <= r < py + cy && (px <= c < px + cols || (c == px + cols && r < py + k))
           then p[Idx(w, h, c - px, r - py)]
           else q0[Idx(ow, oh, c, r)]
  }

  /** One pixel write of the inner loop of `copy_to_image`. */
  lemma PasteStep(q1: seq<Color>, q2: seq<Color>, q0: seq<Color>, ow: nat, oh: nat, p: seq<Color>, w: nat, h: nat,
                  px: nat, py: nat, cy: nat, cols: nat, k: nat)
    requires Pasting(q1, q0, ow, oh, p, w, h, px, py, cy, cols, k)
    requires k < cy && cols < w && px + cols < ow && py + k < oh
    requires q2 == q1[Idx(ow, oh, cols + px, k + py) := p[Idx(w, h, cols, k)]]
    ensures Pasting(q2, q0, ow, oh, p, w, h, px, py, cy, cols, k + 1)
  {
    var target := Idx(ow, oh, cols + px, k + py);
    forall c, r | 0 <= c < ow && 0 <= r < oh
      ensures q2[Idx(ow, oh, c, r)] ==
        if py <= r < py + cy && (px <= c < px + cols || (c == px + cols && r < py + k + 1))
        then p[Idx(w, h, c - px, r - py)]
        else q0[Idx(ow, oh, c, r)]
    {
      var i := Idx(ow, oh, c, r);
      if i == target {
        IdxInjective(ow, oh, c, r, cols + px, k + py);
      } else {
        assert q2[i] == q1[i];
        assert !(c == px + cols && r == py + k);
      }
    }
  }

  /** A finished column counts as one more full column. */
  lemma NextColumn(q: seq<Color>, q0: seq<Color>, ow: nat, oh: nat, p: seq<Color>, w: nat, h: nat,
                   px: nat, py: nat, cy: nat, cols: nat)
    requires Pasting(q, q0, ow, oh, p, w, h, px, py, cy, cols, cy) && cols < w
    ensures Pasting(q, q0, ow, oh, p, w, h, px, py, cy, cols + 1, 0)
  {
  }

  /** When the column loop stops, the pasted region is the whole of `p`
      that fits inside `q`. */
  lemma PastingDone(q: seq<Color>, q0: seq<Color>, ow: nat, oh: nat, p: seq<Color>, w: nat, h: nat,
                    px: nat, py: nat, cy: nat, cols: nat)
    requires Pasting(q, q0, ow, oh, p, w, h, px, py, cy, cols, 0)
    requires cy == if oh - py < h then (if oh - py < 0 then 0 else oh - py) else h
    requires cols == w || (cols == 0 && ow <= px) || px + cols == ow
    ensures IsPasteOf(q, q0, ow, oh, p, w, h, px, py)
  {
  }
}
