/** Glyph placement of `FontLoader` and `MultiFontLoader` in
    `util_stb.hpp`. The stb_truetype queries a loader makes (bounding box,
    advance, left side bearing, kerning, glyph lookup) are the functions of
    a `Metrics` value, already rounded to pixels at the loader's scale. */
module Fonts {
  import opened Results
  import opened StbImage
  import opened Slices

  /** What stb_truetype answers for one loaded font. */
  datatype Metrics = Metrics(
    box: int -> Rect,            // `_get_character_bounding_box`
    advance: int -> int,         // advance width of `_get_character_advancement`
    bearing: int -> int,         // left side bearing of `_get_character_advancement`
    kern: (int, int) -> int,     // `_get_kernal_advancement`
    hasGlyph: int -> bool)       // `character_is_part_of_font`

  /** The code point of '\n'. */
  const Newline: int := 10

  /** The rectangle `FontLoader::get_character_image_positions` emits for
      `cs[i]` with the pen at (`x`, `y`): empty for '\n', otherwise the
      glyph's bounding box moved right by `x` and the left side bearing and
      down by `y` and the ascent. */
  function GlyphRect(cs: seq<int>, i: nat, x: int, y: int, m: Metrics, ascent: int): Rect
    requires i < |cs|
  {
    if cs[i] == Newline then Rect(0, 0, 0, 0)
    else
      var b := m.box(cs[i]);
      Rect(b.x + x + m.bearing(cs[i]), b.y + ascent + y, b.w, b.h)
  }

  /** The pen's x after `cs[i]`: back to 0 after '\n', otherwise moved by
      the advance and the kerning with the next character, if any. */
  function NextX(cs: seq<int>, i: nat, x: int, m: Metrics): int
    requires i < |cs|
  {
    if cs[i] == Newline then 0
    else if i + 1 != |cs| then x + m.advance(cs[i]) + m.kern(cs[i], cs[i + 1])
    else x
  }

  /** The pen's y after `cs[i]`: one line lower after '\n'. */
  function NextY(cs: seq<int>, i: nat, y: int, lineHeight: int): int
    requires i < |cs|
  {
    if cs[i] == Newline then y + lineHeight else y
  }

  /** The rectangles for `cs[i..]` with the pen at (`x`, `y`). */
  function Place(cs: seq<int>, i: nat, x: int, y: int, m: Metrics, lineHeight: int, ascent: int): (r: seq<Rect>)
    requires i <= |cs|
    ensures |r| == |cs| - i
    decreases |cs| - i
  {
    if i == |cs| then []
    else [GlyphRect(cs, i, x, y, m, ascent)] + Place(cs, i + 1, NextX(cs, i, x, m), NextY(cs, i, y, lineHeight), m, lineHeight, ascent)
  }

  /** How many of `cs[i..k]` are '\n'. */
  function NewlinesBetween(cs: seq<int>, i: nat, k: nat): nat
    requires i <= k <= |cs|
    decreases k - i
  {
    if i == k then 0 else (if cs[i] == Newline then 1 else 0) + NewlinesBetween(cs, i + 1, k)
  }

  /** `ps` are the rectangles emitted for `cs[..i]` when the pen has
      reached (`x`, `y`): followed by the rest, they make up `Place` from
      the origin. */
  ghost predicate PlacedPrefix(cs: seq<int>, i: nat, x: int, y: int, m: Metrics, lineHeight: int, ascent: int, ps: seq<Rect>)
    requires i <= |cs|
  {
    ps + Place(cs, i, x, y, m, lineHeight, ascent) == Place(cs, 0, 0, 0, m, lineHeight, ascent)
  }

  /** Emitting the rectangle for `cs[i]` and moving the pen keeps the
      emitted rectangles a prefix of the whole placement. */
  lemma {:induction false} PlaceStep(cs: seq<int>, i: nat, x: int, y: int, m: Metrics, lineHeight: int, ascent: int, ps: seq<Rect>,
                                      x': int, y': int, ps': seq<Rect>)
    requires i < |cs|
    requires PlacedPrefix(cs, i, x, y, m, lineHeight, ascent, ps)
    requires x' == NextX(cs, i, x, m) && y' == NextY(cs, i, y, lineHeight)
    requires ps' == ps + [GlyphRect(cs, i, x, y, m, ascent)]
    ensures PlacedPrefix(cs, i + 1, x', y', m, lineHeight, ascent, ps')
  {
    AppendAssoc(ps, [GlyphRect(cs, i, x, y, m, ascent)], Place(cs, i + 1, x', y', m, lineHeight, ascent));
  }

  /** Entry `k` of the rectangles from `i` on is entry `k` of those from
      `i + 1` on. */
  lemma PlaceAt(cs: seq<int>, i: nat, x: int, y: int, m: Metrics, lineHeight: int, ascent: int, k: nat)
    requires i < k < |cs|
    ensures Place(cs, i, x, y, m, lineHeight, ascent)[k - i]
         == Place(cs, i + 1, NextX(cs, i, x, m), NextY(cs, i, y, lineHeight), m, lineHeight, ascent)[k - (i + 1)]
  {
    assert k - i - 1 == k - (i + 1);
  }

  /** A '\n' yields the empty rectangle at the origin. */
  lemma {:induction false} PlaceNewline(cs: seq<int>, i: nat, x: int, y: int, m: Metrics, lineHeight: int, ascent: int, k: nat)
    requires i <= k < |cs| && cs[k] == Newline
    ensures Place(cs, i, x, y, m, lineHeight, ascent)[k - i] == Rect(0, 0, 0, 0)
    decreases k - i
  {
    if i < k {
      PlaceNewline(cs, i + 1, NextX(cs, i, x, m), NextY(cs, i, y, lineHeight), m, lineHeight, ascent, k);
      PlaceAt(cs, i, x, y, m, lineHeight, ascent, k);
    }
  }

  /** A glyph sits `ascent` below the top of its line, and each '\n'
      before it moves it down by one `line_height`; its size is the
      glyph's bounding box. */
  lemma {:induction false} PlaceLine(cs: seq<int>, i: nat, x: int, y: int, m: Metrics, lineHeight: int, ascent: int, k: nat)
    requires i <= k < |cs| && cs[k] != Newline
    ensures var r := Place(cs, i, x, y, m, lineHeight, ascent)[k - i];
      r.y == m.box(cs[k]).y + ascent + y + lineHeight * NewlinesBetween(cs, i, k)
      && r.w == m.box(cs[k]).w && r.h == m.box(cs[k]).h
    decreases k - i
  {
    if i < k {
      var y' := NextY(cs, i, y, lineHeight);
      var n := NewlinesBetween(cs, i + 1, k);
      PlaceLine(cs, i + 1, NextX(cs, i, x, m), y', m, lineHeight, ascent, k);
      PlaceAt(cs, i, x, y, m, lineHeight, ascent, k);
      assert lineHeight * (n + 1) == lineHeight * n + lineHeight;
    }
  }

  /** After a '\n' the pen is back at the left margin: the next glyph is
      offset only by its own bounding box and bearing. */
  lemma {:induction false} LineStart(cs: seq<int>, i: nat, x: int, y: int, m: Metrics, lineHeight: int, ascent: int, k: nat)
    requires i < k < |cs| && cs[k - 1] == Newline && cs[k] != Newline
    ensures Place(cs, i, x, y, m, lineHeight, ascent)[k - i].x == m.box(cs[k]).x + m.bearing(cs[k])
    decreases k - i
  {
    PlaceAt(cs, i, x, y, m, lineHeight, ascent, k);
    if i + 1 < k {
      LineStart(cs, i + 1, NextX(cs, i, x, m), NextY(cs, i, y, lineHeight), m, lineHeight, ascent, k);
    }
  }

  /** Changing only the ascent moves every glyph by the difference, which
      is what a stale `ascent` field does to the text. */
  lemma AscentShift(cs: seq<int>, m: Metrics, lineHeight: int, ascent: int, ascent': int, k: nat)
    requires k < |cs| && cs[k] != Newline
    ensures Place(cs, 0, 0, 0, m, lineHeight, ascent)[k].y - Place(cs, 0, 0, 0, m, lineHeight, ascent')[k].y == ascent - ascent'
  {
    PlaceLine(cs, 0, 0, 0, m, lineHeight, ascent, k);
    PlaceLine(cs, 0, 0, 0, m, lineHeight, ascent', k);
  }

  /** The finding below: `FontLoader::set_line_height` as written stores
      the scaled vertical metrics in local variables that shadow the
      fields. */
  class FontLoader {
    var lineHeight: int
    var ascent: int
    var descent: int
    var metrics: Metrics

    /** A loaded font with the given field values. */
    constructor(m: Metrics, lineHeight0: int, ascent0: int, descent0: int)
      ensures metrics == m && lineHeight == lineHeight0 && ascent == ascent0 && descent == descent0
    {
      metrics, lineHeight, ascent, descent := m, lineHeight0, ascent0, descent0;
    }

    /** `set_line_height` as written: the new `scale` is stored, so every
        glyph query now answers `scaled` (stb_truetype's metrics at the scale
        for the new height), but `scaledAscent` and `scaledDescent` (the
        font's vertical metrics times that scale, rounded) land in locals:
        the `ascent` and `descent` fields keep their old values. */
    method SetLineHeightAsWritten(newLineHeight: int, scaled: Metrics, scaledAscent: int, scaledDescent: int)
      modifies this
      ensures lineHeight == newLineHeight && metrics == scaled
      ensures ascent == old(ascent) && descent == old(descent)
    {
      lineHeight := newLineHeight;
      metrics := scaled;
    }

    /** `set_line_height` as intended: the new scale and the scaled
        vertical metrics are all stored in the fields that glyph placement
        reads. */
    method SetLineHeight(newLineHeight: int, scaled: Metrics, scaledAscent: int, scaledDescent: int)
      modifies this
      ensures lineHeight == newLineHeight && metrics == scaled
      ensures ascent == scaledAscent && descent == scaledDescent
    {
      lineHeight, metrics := newLineHeight, scaled;
      ascent, descent := scaledAscent, scaledDescent;
    }

    /** `get_character_image_positions`: one rectangle per character. */
    method GetCharacterImagePositions(characters: seq<int>) returns (positions: seq<Rect>)
      ensures positions == Place(characters, 0, 0, 0, metrics, lineHeight, ascent)
    {
      positions := [];
      var x, y := 0, 0;
      for i := 0 to |characters|
        invariant PlacedPrefix(characters, i, x, y, metrics, lineHeight, ascent, positions)
      {
        ghost var x0, y0, prev := x, y, positions;
        if characters[i] == Newline {
          positions := positions + [Rect(0, 0, 0, 0)];
          y := y + lineHeight;
          x := 0;
          PlaceStep(characters, i, x0, y0, metrics, lineHeight, ascent, prev, x, y, positions);
        } else {
          var imagePos := metrics.box(characters[i]);
          imagePos := imagePos.(x := imagePos.x + x);
          imagePos := imagePos.(y := imagePos.y + ascent + y);
          imagePos := imagePos.(x := imagePos.x + metrics.bearing(characters[i]));
          assert imagePos == GlyphRect(characters, i, x0, y0, metrics, ascent);
          positions := positions + [imagePos];
          if i + 1 != |characters| {
            x := x + metrics.advance(characters[i]);
            x := x + metrics.kern(characters[i], characters[i + 1]);
          }
          PlaceStep(characters, i, x0, y0, metrics, lineHeight, ascent, prev, x, y, positions);
        }
      }
    }
  }

  /** A font whose line height is changed to 32 while its scaled ascent
      becomes 24: a glyph placed afterwards sits 24 pixels higher with the
      line-height setter as written than with the intended one. */
  method StaleAscentExample(m: Metrics, c: int) returns (written: seq<Rect>, intended: seq<Rect>)
    requires c != Newline
    ensures |written| == 1 && |intended| == 1
    ensures intended[0].y == written[0].y + 24
  {
    var stale := new FontLoader(m, 64, 0, 0);
    stale.SetLineHeightAsWritten(32, m, 24, -8);
    written := stale.GetCharacterImagePositions([c]);
    var fixed := new FontLoader(m, 64, 0, 0);
    fixed.SetLineHeight(32, m, 24, -8);
    intended := fixed.GetCharacterImagePositions([c]);
    assert written[0] == GlyphRect([c], 0, 0, 0, m, 0);
    assert intended[0] == GlyphRect([c], 0, 0, 0, m, 24);
  }

  /** One of the `FontLoader` values `MultiFontLoader` keeps in its
      vector, as far as glyph placement reads it: the metrics at its
      current scale and its ascent. */
  datatype Face = Face(metrics: Metrics, ascent: int)

  /** The index of the first of `faces`, from `j` on, with a glyph for
      `c`: `find_font_with_character`. */
  function FirstFont(faces: seq<Face>, c: int, j: nat): (r: Option<nat>)
    requires j <= |faces|
    ensures r.Some? ==> j <= r.value < |faces| && faces[r.value].metrics.hasGlyph(c)
    ensures r.Some? ==> forall l :: j <= l < r.value ==> !faces[l].metrics.hasGlyph(c)
    ensures r.None? ==> forall l :: j <= l < |faces| ==> !faces[l].metrics.hasGlyph(c)
    decreases |faces| - j
  {
    if j == |faces| then None
    else if faces[j].metrics.hasGlyph(c) then Some(j)
    else FirstFont(faces, c, j + 1)
  }

  /** The largest `ascent` of the faces that `cs[..n]` use, and 0 if none
      is larger: the first loop of
      `MultiFontLoader::get_character_image_positions`. */
  function MaxAscent(faces: seq<Face>, cs: seq<int>, n: nat): (r: int)
    requires n <= |cs|
    ensures r >= 0
    ensures forall j :: 0 <= j < n && FirstFont(faces, cs[j], 0).Some? ==> faces[FirstFont(faces, cs[j], 0).value].ascent <= r
  {
    if n == 0 then 0
    else
      var a := MaxAscent(faces, cs, n - 1);
      match FirstFont(faces, cs[n - 1], 0)
      case None => a
      case Some(k) => if faces[k].ascent > a then faces[k].ascent else a
  }

  /** The common ascent is 0 or the ascent of a font some character uses. */
  lemma {:induction false} MaxAscentAttained(faces: seq<Face>, cs: seq<int>, n: nat)
    requires n <= |cs|
    ensures var r := MaxAscent(faces, cs, n);
      r == 0 || exists j :: 0 <= j < n && FirstFont(faces, cs[j], 0).Some? && faces[FirstFont(faces, cs[j], 0).value].ascent == r
  {
    if n > 0 {
      MaxAscentAttained(faces, cs, n - 1);
    }
  }

  /** How many of `cs[i..]` get a rectangle from
      `MultiFontLoader::get_character_image_positions`: the '\n's and the
      characters some font has. */
  function Shown(cs: seq<int>, i: nat, faces: seq<Face>): nat
    requires i <= |cs|
    decreases |cs| - i
  {
    if i == |cs| then 0
    else (if cs[i] == Newline || FirstFont(faces, cs[i], 0).Some? then 1 else 0) + Shown(cs, i + 1, faces)
  }

  /** The rectangles `MultiFontLoader::get_character_image_positions`
      emits for `cs[i..]`: a '\n' gives (`x`, 0, 0, 0) with the pen's `x`
      before the line break, a character no font has is skipped, and any
      other is placed by the first font that has it, at the common
      `ascent`. */
  function MultiPlace(cs: seq<int>, i: nat, x: int, y: int, faces: seq<Face>, lineHeight: int, ascent: int): (r: seq<Rect>)
    requires i <= |cs|
    ensures |r| == Shown(cs, i, faces)
    decreases |cs| - i
  {
    if i == |cs| then []
    else if cs[i] == Newline then [Rect(x, 0, 0, 0)] + MultiPlace(cs, i + 1, 0, y + lineHeight, faces, lineHeight, ascent)
    else match FirstFont(faces, cs[i], 0)
      case None => MultiPlace(cs, i + 1, x, y, faces, lineHeight, ascent)
      case Some(k) =>
        var m := faces[k].metrics;
        [GlyphRect(cs, i, x, y, m, ascent)] + MultiPlace(cs, i + 1, NextX(cs, i, x, m), y, faces, lineHeight, ascent)
  }

  /** One step of `MultiPlace`. */
  lemma MultiPlaceStep(cs: seq<int>, i: nat, x: int, y: int, faces: seq<Face>, lineHeight: int, ascent: int)
    requires i < |cs|
    ensures cs[i] == Newline ==>
      MultiPlace(cs, i, x, y, faces, lineHeight, ascent) == [Rect(x, 0, 0, 0)] + MultiPlace(cs, i + 1, 0, y + lineHeight, faces, lineHeight, ascent)
    ensures cs[i] != Newline && FirstFont(faces, cs[i], 0).None? ==>
      MultiPlace(cs, i, x, y, faces, lineHeight, ascent) == MultiPlace(cs, i + 1, x, y, faces, lineHeight, ascent)
    ensures cs[i] != Newline && FirstFont(faces, cs[i], 0).Some? ==>
      var m := faces[FirstFont(faces, cs[i], 0).value].metrics;
      MultiPlace(cs, i, x, y, faces, lineHeight, ascent)
        == [GlyphRect(cs, i, x, y, m, ascent)] + MultiPlace(cs, i + 1, NextX(cs, i, x, m), y, faces, lineHeight, ascent)
  {
  }

  /** `ps` are the rectangles emitted for `cs[..i]` when the pen has reached
      (`x`, `y`): followed by the rest, they make up the whole placement. */
  ghost predicate Placed(cs: seq<int>, i: nat, x: int, y: int, faces: seq<Face>, lineHeight: int, ascent: int, ps: seq<Rect>)
    requires i <= |cs|
  {
    ps + MultiPlace(cs, i, x, y, faces, lineHeight, ascent) == MultiPlace(cs, 0, 0, 0, faces, lineHeight, ascent)
  }

  /** A '\n' emits (`x`, 0, 0, 0) and starts the next line. */
  lemma {:induction false} PlacedNewline(cs: seq<int>, i: nat, x: int, y: int, faces: seq<Face>, lineHeight: int, ascent: int, ps: seq<Rect>,
                                          y': int, ps': seq<Rect>)
    requires i < |cs| && cs[i] == Newline
    requires Placed(cs, i, x, y, faces, lineHeight, ascent, ps)
    requires y' == y + lineHeight && ps' == ps + [Rect(x, 0, 0, 0)]
    ensures Placed(cs, i + 1, 0, y', faces, lineHeight, ascent, ps')
  {
    MultiPlaceStep(cs, i, x, y, faces, lineHeight, ascent);
    AppendAssoc(ps, [Rect(x, 0, 0, 0)], MultiPlace(cs, i + 1, 0, y + lineHeight, faces, lineHeight, ascent));
  }

  /** A character no font has emits nothing and leaves the pen. */
  lemma {:induction false} PlacedSkip(cs: seq<int>, i: nat, x: int, y: int, faces: seq<Face>, lineHeight: int, ascent: int, ps: seq<Rect>)
    requires i < |cs| && cs[i] != Newline && FirstFont(faces, cs[i], 0).None?
    requires Placed(cs, i, x, y, faces, lineHeight, ascent, ps)
    ensures Placed(cs, i + 1, x, y, faces, lineHeight, ascent, ps)
  {
    MultiPlaceStep(cs, i, x, y, faces, lineHeight, ascent);
  }

  /** A character font `k` is the first to have emits its glyph rectangle
      and moves the pen by that font's metrics. */
  lemma {:induction false} PlacedGlyph(cs: seq<int>, i: nat, x: int, y: int, faces: seq<Face>, lineHeight: int, ascent: int, ps: seq<Rect>,
                                        k: nat, m: Metrics, x': int, ps': seq<Rect>)
    requires i < |cs| && cs[i] != Newline && FirstFont(faces, cs[i], 0) == Some(k)
    requires Placed(cs, i, x, y, faces, lineHeight, ascent, ps)
    requires k < |faces| && m == faces[k].metrics
    requires x' == NextX(cs, i, x, m) && ps' == ps + [GlyphRect(cs, i, x, y, m, ascent)]
    ensures Placed(cs, i + 1, x', y, faces, lineHeight, ascent, ps')
  {
    MultiPlaceStep(cs, i, x, y, faces, lineHeight, ascent);
    AppendAssoc(ps, [GlyphRect(cs, i, x, y, m, ascent)], MultiPlace(cs, i + 1, NextX(cs, i, x, m), y, faces, lineHeight, ascent));
  }

  /** With one font that has every character, the two loaders agree on
      every glyph; they differ only in the x of the '\n' entries. */
  lemma {:induction false} SingleFontAgrees(cs: seq<int>, i: nat, x: int, y: int, f: Face, lineHeight: int, ascent: int, k: nat)
    requires forall j :: 0 <= j < |cs| ==> f.metrics.hasGlyph(cs[j])
    requires i <= k < |cs| && cs[k] != Newline
    ensures Shown(cs, i, [f]) == |cs| - i
    ensures MultiPlace(cs, i, x, y, [f], lineHeight, ascent)[k - i] == Place(cs, i, x, y, f.metrics, lineHeight, ascent)[k - i]
    decreases |cs| - i
  {
    assert FirstFont([f], cs[i], 0) == Some(0);
    if i < k {
      SingleFontAgrees(cs, i + 1, NextX(cs, i, x, f.metrics), NextY(cs, i, y, lineHeight), f, lineHeight, ascent, k);
      PlaceAt(cs, i, x, y, f.metrics, lineHeight, ascent, k);
      assert k - i - 1 == k - (i + 1);
    } else {
      ShownAll(cs, i, f);
    }
  }

  lemma {:induction false} ShownAll(cs: seq<int>, i: nat, f: Face)
    requires forall j :: 0 <= j < |cs| ==> f.metrics.hasGlyph(cs[j])
    requires i <= |cs|
    ensures Shown(cs, i, [f]) == |cs| - i
    decreases |cs| - i
  {
    if i < |cs| {
      assert FirstFont([f], cs[i], 0) == Some(0);
      ShownAll(cs, i + 1, f);
    }
  }

  /** `MultiFontLoader`: the loaded fonts, tried in order. Its
      `std::vector<FontLoader>` holds the loaders by value, so the field is
      a sequence of `Face` values. */
  class MultiFontLoader {
    var fontLoaders: seq<Face>
    var lineHeight: int

    constructor()
      ensures fontLoaders == [] && lineHeight == 64
    {
      fontLoaders, lineHeight := [], 64;
    }

    /** `find_font_with_character`: the position in the vector of the
        loader it returns a pointer to, or none for its null pointer. */
    method FindFontWithCharacter(character: int) returns (font: Option<nat>)
      ensures font == FirstFont(fontLoaders, character, 0)
    {
      for j := 0 to |fontLoaders|
        invariant FirstFont(fontLoaders, character, 0) == FirstFont(fontLoaders, character, j)
      {
        if fontLoaders[j].metrics.hasGlyph(character) {
          return Some(j);
        }
      }
      return None;
    }

    /** The first loop of `get_character_image_positions`: the largest
        ascent among the fonts the characters use. */
    method CommonAscent(characters: seq<int>) returns (ascent: int)
      ensures ascent == MaxAscent(fontLoaders, characters, |characters|)
    {
      ascent := 0;
      for i := 0 to |characters|
        invariant ascent == MaxAscent(fontLoaders, characters, i)
      {
        var font := FindFontWithCharacter(characters[i]);
        if font.Some? && fontLoaders[font.value].ascent > ascent {
          ascent := fontLoaders[font.value].ascent;
        }
      }
    }

    /** `get_character_image_positions`. */
    method GetCharacterImagePositions(characters: seq<int>) returns (positions: seq<Rect>)
      ensures positions == MultiPlace(characters, 0, 0, 0, fontLoaders, lineHeight, MaxAscent(fontLoaders, characters, |characters|))
    {
      var ascent := CommonAscent(characters);
      positions := PlaceWithAscent(characters, ascent);
    }

    /** The second loop of `get_character_image_positions`, with the
        common ascent already known. */
    method PlaceWithAscent(characters: seq<int>, ascent: int) returns (positions: seq<Rect>)
      ensures positions == MultiPlace(characters, 0, 0, 0, fontLoaders, lineHeight, ascent)
    {
      positions := [];
      var x, y := 0, 0;
      for i := 0 to |characters|
        invariant Placed(characters, i, x, y, fontLoaders, lineHeight, ascent, positions)
      {
        ghost var x0, y0, prev := x, y, positions;
        if characters[i] == Newline {
          positions := positions + [Rect(x, 0, 0, 0)];
          y := y + lineHeight;
          x := 0;
          PlacedNewline(characters, i, x0, y0, fontLoaders, lineHeight, ascent, prev, y, positions);
        } else {
          var font := FindFontWithCharacter(characters[i]);
          if font.None? {
            PlacedSkip(characters, i, x, y, fontLoaders, lineHeight, ascent, positions);
          } else {
            var m := fontLoaders[font.value].metrics;
            ghost var nx := NextX(characters, i, x, m);
            var imagePos := m.box(characters[i]);
            imagePos := imagePos.(x := imagePos.x + x);
            imagePos := imagePos.(y := imagePos.y + ascent + y);
            imagePos := imagePos.(x := imagePos.x + m.bearing(characters[i]));
            assert imagePos == GlyphRect(characters, i, x, y, m, ascent);
            positions := positions + [imagePos];
            if i + 1 < |characters| {
              x := x + m.advance(characters[i]) + m.kern(characters[i], characters[i + 1]);
            }
            assert x == nx;
            PlacedGlyph(characters, i, x0, y0, fontLoaders, lineHeight, ascent, prev, font.value, m, x, positions);
          }
        }
      }
    }
  }
}
