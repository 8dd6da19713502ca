/** The attachment layout engine (`GuiEngine`) and the texture-atlas layout
    (`TextureLayout`) of util_opengl.hpp.

    Elements are declared relative to one another: each one names the element
    it is attached to and which corner of it meets which corner of its anchor.
    `Build` resolves absolute pixel rectangles by a worklist fixed point seeded
    with the root element "screen". */
module Gui {
  import opened Results
  import opened StringOrder

  /** The implicit root element. */
  const ScreenName: string := "screen"

  /** `GuiEngine::Rect`: pixel space, origin top-left, y growing downwards. */
  datatype Rect = Rect(x: int, y: int, w: int, h: int)

  /** `GuiEngine::RectGL`: the floats of the source, as exact reals. */
  datatype RectGL = RectGL(x: real, y: real, w: real, h: real)

  /** `Rect::inside_rect`: strict on all four edges, so a rectangle less
      than two pixels wide or high contains no point. */
  predicate InsideRect(r: Rect, px: int, py: int): (b: bool)
    ensures b ==> r.w >= 2 && r.h >= 2
  {
    px > r.x && py > r.y && px < r.x + r.w && py < r.y + r.h
  }

  /** A point on any edge of a rectangle is not inside it. */
  lemma InsideRectExcludesEdges(r: Rect, px: int, py: int)
    requires px == r.x || px == r.x + r.w || py == r.y || py == r.y + r.h
    ensures !InsideRect(r, px, py)
  {
  }

  /** One corner of a rectangle: the four flags `_e_right_`, `_e_bottom`,
      `_o_right_` and `_o_bottom` of the source come in two such pairs. */
  datatype Corner = Corner(right: bool, bottom: bool)

  /** `attach_location`: which corner of the anchor (`owner`) meets which
      corner of the attached element (`elem`). The 16 named enumerators are
      the 16 values of this pair. `null_` follows `o_TopLeft_e_TopLeft = 0`
      without an initializer, so its value is 1, the `_e_right_` flag alone:
      the anchor's top-left corner meets the element's top-right corner. */
  datatype AttachLocation = AttachLocation(owner: Corner, elem: Corner)

  const TopLeftToTopLeft := AttachLocation(Corner(false, false), Corner(false, false))

  /** `GuiEngine::Attachment`: one declaration. */
  datatype Attachment = Attachment(w: int, h: int, attachTo: string, loc: AttachLocation, layer: int)

  /** `attach_location::null_`. */
  const NullLocation := AttachLocation(Corner(false, false), Corner(true, false))

  /** A default-constructed `Attachment` (what `operator[]` inserts). */
  const DefaultAttachment := Attachment(0, 0, "", NullLocation, -1)

  /** x coordinate of corner `c` of `r`. */
  function CornerX(r: Rect, c: Corner): int
  {
    r.x + (if c.right then r.w else 0)
  }

  /** y coordinate of corner `c` of `r`. */
  function CornerY(r: Rect, c: Corner): int
  {
    r.y + (if c.bottom then r.h else 0)
  }

  /** The rectangle `build` assigns to an element `a` whose anchor is at `o`. */
  function Place(o: Rect, a: Attachment): Rect
  {
    Rect(o.x + (if a.loc.owner.right then o.w else 0) - (if a.loc.elem.right then a.w else 0),
         o.y + (if a.loc.owner.bottom then o.h else 0) - (if a.loc.elem.bottom then a.h else 0),
         a.w, a.h)
  }

  /** The placed element keeps its declared size and its chosen corner lies
      exactly on the chosen corner of its anchor; these two facts determine
      the placed rectangle. */
  lemma PlaceMeetsCorner(o: Rect, a: Attachment, r: Rect)
    ensures r == Place(o, a) <==>
      (r.w == a.w && r.h == a.h &&
       CornerX(r, a.loc.elem) == CornerX(o, a.loc.owner) &&
       CornerY(r, a.loc.elem) == CornerY(o, a.loc.owner))
  {
  }

  /** The default entry has no size, so wherever its anchor is, it sits as
      an empty rectangle at the anchor's top-left corner even though `null_`
      picks the element's right edge. */
  lemma DefaultPlacesAtAnchor(o: Rect)
    ensures DefaultAttachment.loc.elem.right
    ensures Place(o, DefaultAttachment) == Rect(o.x, o.y, 0, 0)
  {
  }

  /** The position an element receives by following its `attach_to` links for
      at most `fuel` steps; None if the chain has not reached "screen" by then
      or meets an undeclared name. */
  function Resolve(decls: map<string, Attachment>, sw: int, sh: int, name: string, fuel: nat): Option<Rect>
    decreases fuel
  {
    if name == ScreenName then Some(Rect(0, 0, sw, sh))
    else if fuel == 0 || name !in decls then None
    else match Resolve(decls, sw, sh, decls[name].attachTo, fuel - 1)
      case None => None
      case Some(o) => Some(Place(o, decls[name]))
  }

  /** More fuel never changes a position once found: the resolved rectangle
      of a name does not depend on how long its chain is followed. */
  lemma {:induction false} ResolveMonotone(decls: map<string, Attachment>, sw: int, sh: int, name: string, k: nat, k': nat)
    requires k <= k'
    requires Resolve(decls, sw, sh, name, k).Some?
    ensures Resolve(decls, sw, sh, name, k') == Resolve(decls, sw, sh, name, k)
    decreases k
  {
    if name != ScreenName {
      ResolveMonotone(decls, sw, sh, decls[name].attachTo, k - 1, k' - 1);
    }
  }

  /** Following the `attach_to` links from `n` reaches "screen". */
  ghost predicate Reaches(decls: map<string, Attachment>, sw: int, sh: int, n: string)
  {
    exists k: nat :: Resolve(decls, sw, sh, n, k).Some?
  }

  /** Following the `attach_to` links from `n` places it at `r`. */
  ghost predicate ResolvesTo(decls: map<string, Attachment>, sw: int, sh: int, n: string, r: Rect)
  {
    exists k: nat :: Resolve(decls, sw, sh, n, k) == Some(r)
  }

  /** A name resolves to at most one rectangle. */
  lemma ResolvesToUnique(decls: map<string, Attachment>, sw: int, sh: int, n: string, r1: Rect, r2: Rect)
    requires ResolvesTo(decls, sw, sh, n, r1) && ResolvesTo(decls, sw, sh, n, r2)
    ensures r1 == r2
  {
    var k1: nat :| Resolve(decls, sw, sh, n, k1) == Some(r1);
    var k2: nat :| Resolve(decls, sw, sh, n, k2) == Some(r2);
    if k1 <= k2 {
      ResolveMonotone(decls, sw, sh, n, k1, k2);
    } else {
      ResolveMonotone(decls, sw, sh, n, k2, k1);
    }
  }

  /** A resolved element sits at `Place` of its anchor's resolved rectangle. */
  lemma ResolvedPosition(decls: map<string, Attachment>, sw: int, sh: int, name: string, k: nat)
    requires name != ScreenName
    requires Resolve(decls, sw, sh, name, k).Some?
    ensures name in decls && k > 0
    ensures Resolve(decls, sw, sh, decls[name].attachTo, k - 1).Some?
    ensures Resolve(decls, sw, sh, name, k).value ==
            Place(Resolve(decls, sw, sh, decls[name].attachTo, k - 1).value, decls[name])
  {
  }

  /** The names of a cycle of `attach_to` links (any set of declared names,
      "screen" excluded, whose anchors all lie in the set) never resolve,
      however far their chain is followed. */
  lemma {:induction false} CycleNeverResolves(decls: map<string, Attachment>, sw: int, sh: int, cycle: set<string>, n: string, k: nat)
    requires ScreenName !in cycle
    requires forall m :: m in cycle ==> m in decls && decls[m].attachTo in cycle
    requires n in cycle
    ensures Resolve(decls, sw, sh, n, k) == None
    decreases k
  {
    if k > 0 {
      CycleNeverResolves(decls, sw, sh, cycle, decls[n].attachTo, k - 1);
    }
  }

  /** The scenario of a panel attached to the screen and a button attached to
      the panel, both top-left to top-left. */
  lemma PanelButtonScenario(decls: map<string, Attachment>)
    requires decls == map["panel" := Attachment(100, 50, ScreenName, TopLeftToTopLeft, 0),
                           "button" := Attachment(40, 20, "panel", TopLeftToTopLeft, 1)]
    ensures Resolve(decls, 200, 200, "panel", 1) == Some(Rect(0, 0, 100, 50))
    ensures Resolve(decls, 200, 200, "button", 2) == Some(Rect(0, 0, 40, 20))
  {
  }

  /** The same scenario through the engine: `element_attach` for both
      elements, then `build`, then `get_element_pos`. */
  method PanelButtonBuild() returns (panel: Rect, button: Rect)
    ensures panel == Rect(0, 0, 100, 50) && button == Rect(0, 0, 40, 20)
  {
    var engine := new GuiEngine();
    engine.SetScreenSize(200, 200);
    engine.ElementAttach("panel", 100, 50, ScreenName, TopLeftToTopLeft, 0);
    engine.ElementAttach("button", 40, 20, "panel", TopLeftToTopLeft, 1);
    ghost var decls := engine.attachments;
    assert decls == map["panel" := Attachment(100, 50, ScreenName, TopLeftToTopLeft, 0),
                        "button" := Attachment(40, 20, "panel", TopLeftToTopLeft, 1)];
    engine.Build();
    PanelButtonScenario(decls);
    assert Reaches(decls, 200, 200, "panel") && Reaches(decls, 200, 200, "button");
    panel := engine.GetElementPos("panel");
    button := engine.GetElementPos("button");
    assert ResolvesTo(decls, 200, 200, "panel", Rect(0, 0, 100, 50));
    assert ResolvesTo(decls, 200, 200, "button", Rect(0, 0, 40, 20));
    ResolvesToUnique(decls, 200, 200, "panel", panel, Rect(0, 0, 100, 50));
    ResolvesToUnique(decls, 200, 200, "button", button, Rect(0, 0, 40, 20));
  }

  /** The invariant of `build`'s resolved map: "screen" is the screen
      rectangle and every other entry is declared and placed from an entry of
      strictly smaller rank (so no entry rests on a cycle). */
  ghost predicate Sound(decls: map<string, Attachment>, sw: int, sh: int, pos: map<string, Rect>, rank: map<string, nat>)
  {
    && rank.Keys == pos.Keys
    && ScreenName in pos && pos[ScreenName] == Rect(0, 0, sw, sh)
    && forall n :: n in pos && n != ScreenName ==>
         && n in decls
         && decls[n].attachTo in pos
         && rank[decls[n].attachTo] < rank[n]
         && pos[n] == Place(pos[decls[n].attachTo], decls[n])
  }

  /** Every entry of a sound map is the position its chain resolves to. */
  lemma {:induction false} SoundResolves(decls: map<string, Attachment>, sw: int, sh: int, pos: map<string, Rect>, rank: map<string, nat>, n: string)
    requires Sound(decls, sw, sh, pos, rank)
    requires n in pos
    ensures Resolve(decls, sw, sh, n, rank[n]) == Some(pos[n])
    decreases rank[n]
  {
    if n != ScreenName {
      var a := decls[n].attachTo;
      SoundResolves(decls, sw, sh, pos, rank, a);
      ResolveMonotone(decls, sw, sh, a, rank[a], rank[n] - 1);
    }
  }

  /** When no name of the worklist has a resolved anchor, none of them ever
      resolves. */
  lemma {:induction false} StuckNeverResolves(decls: map<string, Attachment>, sw: int, sh: int, pos: map<string, Rect>, todo: set<string>, n: string, k: nat)
    requires ScreenName in pos
    requires forall m :: m in decls && m !in pos ==> m in todo
    requires forall m :: m in todo ==> m in decls && m != ScreenName && decls[m].attachTo !in pos
    requires n in todo
    ensures Resolve(decls, sw, sh, n, k) == None
    decreases k
  {
    if k > 0 {
      var a := decls[n].attachTo;
      if a in decls {
        StuckNeverResolves(decls, sw, sh, pos, todo, a, k - 1);
      }
    }
  }

  /** Placing one more element whose anchor is already placed keeps the
      resolved map sound. */
  lemma SoundExtend(decls: map<string, Attachment>, sw: int, sh: int, pos: map<string, Rect>, rank: map<string, nat>, name: string,
                    pos': map<string, Rect>, rank': map<string, nat>)
    requires Sound(decls, sw, sh, pos, rank)
    requires name in decls && name != ScreenName && name !in pos
    requires decls[name].attachTo in pos
    requires pos' == pos[name := Place(pos[decls[name].attachTo], decls[name])]
    requires rank' == rank[name := rank[decls[name].attachTo] + 1]
    ensures Sound(decls, sw, sh, pos', rank') && pos'.Keys == pos.Keys + {name}
  {
  }

  /** Where `build`'s loop stops: the placed names are exactly those whose
      chain reaches "screen", each at the position its chain gives. */
  lemma FixpointResolves(decls: map<string, Attachment>, sw: int, sh: int, pos: map<string, Rect>, rank: map<string, nat>, todo: set<string>)
    requires ScreenName !in decls
    requires todo <= decls.Keys
    requires pos.Keys == {ScreenName} + (decls.Keys - todo)
    requires Sound(decls, sw, sh, pos, rank)
    requires forall m :: m in todo ==> decls[m].attachTo !in pos
    ensures forall n :: n in pos <==> n == ScreenName || (n in decls && Reaches(decls, sw, sh, n))
    ensures forall n :: n in pos ==> ResolvesTo(decls, sw, sh, n, pos[n])
  {
    forall n | n in pos
      ensures ResolvesTo(decls, sw, sh, n, pos[n])
    {
      SoundResolves(decls, sw, sh, pos, rank, n);
    }
    forall n | n in decls && n !in pos
      ensures !Reaches(decls, sw, sh, n)
    {
      forall k: nat ensures Resolve(decls, sw, sh, n, k) == None {
        StuckNeverResolves(decls, sw, sh, pos, todo, n, k);
      }
    }
  }

  /** `std::map::operator[]` read of a layer: undeclared names (such as
      "screen") read the default layer -1. */
  function LayerOf(decls: map<string, Attachment>, n: string): int
  {
    if n in decls then decls[n].layer else -1
  }

  /** Element `n` can be returned by `get_xy_element(px, py)`: it is resolved,
      strictly contains the point and has a layer above -1. */
  predicate Hit(decls: map<string, Attachment>, pos: map<string, Rect>, px: int, py: int, n: string)
  {
    n in pos && InsideRect(pos[n], px, py) && LayerOf(decls, n) > -1
  }

  /** After the first `i` keys of `get_xy_element`'s loop: `name` is the
      first hit of highest layer `layer` among them, or "screen" at -1 when
      none of them is hit. */
  ghost predicate BestSoFar(decls: map<string, Attachment>, pos: map<string, Rect>, px: int, py: int,
                            keys: seq<string>, i: nat, name: string, layer: int)
    requires i <= |keys|
  {
    && layer >= -1
    && (layer == -1 ==> name == ScreenName && forall j :: 0 <= j < i ==> !Hit(decls, pos, px, py, keys[j]))
    && (layer > -1 ==> Hit(decls, pos, px, py, name) && LayerOf(decls, name) == layer && name in keys[..i])
    && (forall j :: 0 <= j < i && Hit(decls, pos, px, py, keys[j]) ==> LayerOf(decls, keys[j]) <= layer)
    && (forall j :: 0 <= j < i && Hit(decls, pos, px, py, keys[j]) && LayerOf(decls, keys[j]) == layer ==>
          keys[j] == name || Less(name, keys[j]))
  }

  /** One key of the hit test: a hit of strictly higher layer takes over. */
  lemma {:induction false} BestStep(decls: map<string, Attachment>, pos: map<string, Rect>, px: int, py: int,
                                    keys: seq<string>, i: nat, name: string, layer: int,
                                    hit: bool, name': string, layer': int)
    requires i < |keys| && keys[i] in pos && Ascending(keys)
    requires BestSoFar(decls, pos, px, py, keys, i, name, layer)
    requires hit == (InsideRect(pos[keys[i]], px, py) && LayerOf(decls, keys[i]) > layer)
    requires hit ==> name' == keys[i] && layer' == LayerOf(decls, keys[i])
    requires !hit ==> name' == name && layer' == layer
    ensures BestSoFar(decls, pos, px, py, keys, i + 1, name', layer')
  {
    assert keys[..i + 1] == keys[..i] + [keys[i]];
    if layer > -1 && !hit {
      var j :| 0 <= j < i && keys[j] == name;
      assert Less(keys[j], keys[i]);
    }
  }

  /** At the end of the loop the result is the hit of highest layer, the
      least name among equals, or "screen" when nothing is hit. */
  lemma {:induction false} BestFinal(decls: map<string, Attachment>, pos: map<string, Rect>, px: int, py: int,
                                     keys: seq<string>, name: string, layer: int)
    requires forall n :: n in pos <==> n in keys
    requires BestSoFar(decls, pos, px, py, keys, |keys|, name, layer)
    ensures (forall n :: !Hit(decls, pos, px, py, n)) ==> name == ScreenName
    ensures (exists n :: Hit(decls, pos, px, py, n)) ==>
              && Hit(decls, pos, px, py, name)
              && (forall n :: Hit(decls, pos, px, py, n) ==> LayerOf(decls, n) <= LayerOf(decls, name))
              && (forall n :: (Hit(decls, pos, px, py, n) && n != name && LayerOf(decls, n) == LayerOf(decls, name)) ==>
                    Less(name, n))
  {
    assert keys[..|keys|] == keys;
    forall n | Hit(decls, pos, px, py, n)
      ensures LayerOf(decls, n) <= layer
      ensures LayerOf(decls, n) == layer ==> n == name || Less(name, n)
    {
      var j :| 0 <= j < |keys| && keys[j] == n;
    }
  }

  /** After the first `i` keys of `get_xy_element`'s loop: `cur` is `decls`
      with the default declaration added for each of those placed names
      whose rectangle holds the point and that was not declared. */
  ghost predicate DefaultsSoFar(decls: map<string, Attachment>, pos: map<string, Rect>, px: int, py: int,
                                keys: seq<string>, i: nat, cur: map<string, Attachment>)
    requires i <= |keys|
  {
    && (forall n :: n in cur <==> n in decls || (n in keys[..i] && n in pos && InsideRect(pos[n], px, py)))
    && (forall n :: n in cur ==> cur[n] == if n in decls then decls[n] else DefaultAttachment)
  }

  /** One key: `operator[]` on a name whose rectangle holds the point. */
  lemma {:induction false} DefaultsStep(decls: map<string, Attachment>, pos: map<string, Rect>, px: int, py: int,
                                        keys: seq<string>, i: nat, cur: map<string, Attachment>, cur': map<string, Attachment>)
    requires i < |keys| && keys[i] in pos
    requires DefaultsSoFar(decls, pos, px, py, keys, i, cur)
    requires cur' == if InsideRect(pos[keys[i]], px, py) && keys[i] !in cur then cur[keys[i] := DefaultAttachment] else cur
    ensures DefaultsSoFar(decls, pos, px, py, keys, i + 1, cur')
    ensures InsideRect(pos[keys[i]], px, py) ==> keys[i] in cur' && cur'[keys[i]].layer == LayerOf(decls, keys[i])
  {
    assert keys[..i + 1] == keys[..i] + [keys[i]];
  }

  /** At the end of the loop every placed name whose rectangle holds the
      point is declared. */
  lemma {:induction false} DefaultsFinal(decls: map<string, Attachment>, pos: map<string, Rect>, px: int, py: int,
                                         keys: seq<string>, cur: map<string, Attachment>)
    requires forall n :: n in pos <==> n in keys
    requires DefaultsSoFar(decls, pos, px, py, keys, |keys|, cur)
    ensures forall n :: n in cur <==> n in decls || (n in pos && InsideRect(pos[n], px, py))
    ensures forall n :: n in cur ==> cur[n] == if n in decls then decls[n] else DefaultAttachment
  {
    assert keys[..|keys|] == keys;
  }

  /** `rect_to_rect_gl` for a screen of `sw` by `sh` pixels: [-1, 1] with the
      y axis pointing up. */
  function RectToGl(r: Rect, sw: int, sh: int): (g: RectGL)
    requires sw != 0 && sh != 0
    ensures (g.x + 1.0) / 2.0 == r.x as real / sw as real
    ensures (1.0 - g.y) / 2.0 == r.y as real / sh as real
    ensures g.w / 2.0 == r.w as real / sw as real
    ensures g.h / 2.0 == r.h as real / sh as real
  {
    RectGL((r.x as real / sw as real) * 2.0 - 1.0,
           -((r.y as real / sh as real) * 2.0 - 1.0),
           2.0 * (r.w as real / sw as real),
           2.0 * (r.h as real / sh as real))
  }

  /** Inverse of `RectToGl`, back to pixel coordinates. */
  function GlToRect(g: RectGL, sw: int, sh: int): RectGL
  {
    RectGL((g.x + 1.0) * sw as real / 2.0,
           (1.0 - g.y) * sh as real / 2.0,
           g.w * sw as real / 2.0,
           g.h * sh as real / 2.0)
  }

  /** The mapping loses nothing: mapping back gives the pixel rectangle. */
  lemma RectToGlInverse(r: Rect, sw: int, sh: int)
    requires sw != 0 && sh != 0
    ensures GlToRect(RectToGl(r, sw, sh), sw, sh) == RectGL(r.x as real, r.y as real, r.w as real, r.h as real)
  {
    var W, H := sw as real, sh as real;
    calc {
      (((r.x as real / W) * 2.0 - 1.0) + 1.0) * W / 2.0;
      (r.x as real / W) * W;
      r.x as real;
    }
    calc {
      (1.0 - -((r.y as real / H) * 2.0 - 1.0)) * H / 2.0;
      (r.y as real / H) * H;
      r.y as real;
    }
    calc {
      2.0 * (r.w as real / W) * W / 2.0;
      (r.w as real / W) * W;
      r.w as real;
    }
    calc {
      2.0 * (r.h as real / H) * H / 2.0;
      (r.h as real / H) * H;
      r.h as real;
    }
  }

  /** The whole screen maps to the whole normalized square, whatever its size. */
  lemma ScreenMapsToUnitSquare(sw: int, sh: int)
    requires sw > 0 && sh > 0
    ensures RectToGl(Rect(0, 0, sw, sh), sw, sh) == RectGL(-1.0, 1.0, 2.0, 2.0)
  {
  }

  /** Erasing the names a pass placed keeps the placed names and the worklist
      complementary, and shrinks the worklist whenever the pass placed some. */
  lemma WorklistShrinks(names: set<string>, todo: set<string>, placed: set<string>)
    requires todo <= names && placed <= todo
    ensures ({ScreenName} + (names - todo)) + placed == {ScreenName} + (names - (todo - placed))
    ensures placed != {} ==> |todo - placed| < |todo|
  {
    if placed != {} {
      var x :| x in placed;
      assert |todo - placed| + |placed| == |todo| by {
        assert todo == (todo - placed) + placed;
      }
    }
  }

  /** What a pass has done after visiting `order[..i]`: it placed the names
      `done` soundly and nothing else, and while it has placed nothing every
      visited name's anchor was unplaced. */
  ghost predicate PassSoFar(decls: map<string, Attachment>, sw: int, sh: int, pos: map<string, Rect>, todo: set<string>,
                            order: seq<string>, i: nat, pos': map<string, Rect>, rank': map<string, nat>, done: set<string>)
  {
    && i <= |order|
    && (forall j :: 0 <= j < |order| ==> order[j] in decls)
    && done <= todo
    && pos'.Keys == pos.Keys + done
    && Sound(decls, sw, sh, pos', rank')
    && (done == {} ==> pos' == pos)
    && (done == {} ==> forall j :: 0 <= j < i ==> decls[order[j]].attachTo !in pos)
    && (forall j :: i <= j < |order| ==> order[j] !in done)
  }

  /** Visiting a name whose anchor is not placed yet changes nothing. */
  lemma {:induction false} PassSkip(decls: map<string, Attachment>, sw: int, sh: int, pos: map<string, Rect>, todo: set<string>,
                                    order: seq<string>, i: nat, pos': map<string, Rect>, rank': map<string, nat>, done: set<string>)
    requires todo <= decls.Keys && i < |order|
    requires PassSoFar(decls, sw, sh, pos, todo, order, i, pos', rank', done)
    requires decls[order[i]].attachTo !in pos'
    ensures PassSoFar(decls, sw, sh, pos, todo, order, i + 1, pos', rank', done)
  {
  }

  /** Visiting a name whose anchor is placed places it one rank above its
      anchor. */
  lemma {:induction false} PassPlace(decls: map<string, Attachment>, sw: int, sh: int, pos: map<string, Rect>, todo: set<string>,
                                     order: seq<string>, i: nat, pos': map<string, Rect>, rank': map<string, nat>, done: set<string>,
                                     pos'': map<string, Rect>, rank'': map<string, nat>, done': set<string>)
    requires todo <= decls.Keys && ScreenName !in todo && todo !! pos.Keys
    requires i < |order| && order[i] in todo && Ascending(order)
    requires PassSoFar(decls, sw, sh, pos, todo, order, i, pos', rank', done)
    requires decls[order[i]].attachTo in pos'
    requires pos'' == pos'[order[i] := Place(pos'[decls[order[i]].attachTo], decls[order[i]])]
    requires rank'' == rank'[order[i] := rank'[decls[order[i]].attachTo] + 1]
    requires done' == done + {order[i]}
    ensures PassSoFar(decls, sw, sh, pos, todo, order, i + 1, pos'', rank'', done')
  {
    var name := order[i];
    assert name !in done;
    assert name !in pos'.Keys;
    SoundExtend(decls, sw, sh, pos', rank', name, pos'', rank'');
    forall j | i + 1 <= j < |order|
      ensures order[j] !in done'
    {
      assert Less(order[i], order[j]);
      LessIrreflexive(name);
    }
  }

  /** One pass of `build`'s outer loop: visits the worklist `todo` in name
      order and places every name whose anchor is already placed, including
      anchors placed earlier in the same pass. */
  method PlacePass(decls: map<string, Attachment>, sw: int, sh: int, pos: map<string, Rect>, ghost rank: map<string, nat>, todo: set<string>)
    returns (pos': map<string, Rect>, ghost rank': map<string, nat>, newElements: set<string>)
    requires todo <= decls.Keys && ScreenName !in todo
    requires todo !! pos.Keys
    requires Sound(decls, sw, sh, pos, rank)
    ensures newElements <= todo
    ensures pos'.Keys == pos.Keys + newElements
    ensures Sound(decls, sw, sh, pos', rank')
    ensures newElements == {} ==> forall m :: m in todo ==> decls[m].attachTo !in pos
  {
    pos', rank' := pos, rank;
    var order := SortedKeys(todo);
    newElements := {};
    for i := 0 to |order|
      invariant PassSoFar(decls, sw, sh, pos, todo, order, i, pos', rank', newElements)
    {
      var name := order[i];
      assert name in todo by {
        assert name in order;
      }
      var attach := decls[name];
      if attach.attachTo !in pos' {
        PassSkip(decls, sw, sh, pos, todo, order, i, pos', rank', newElements);
        continue;
      }
      var placed := pos'[name := Place(pos'[attach.attachTo], attach)];
      ghost var ranked := rank'[name := rank'[attach.attachTo] + 1];
      PassPlace(decls, sw, sh, pos, todo, order, i, pos', rank', newElements, placed, ranked, newElements + {name});
      newElements := newElements + {name};
      rank' := ranked;
      pos' := placed;
    }
    forall m | m in todo && newElements == {}
      ensures decls[m].attachTo !in pos
    {
      assert m in order;
    }
  }

  /** The loops of `build` over the declarations `decls` and a screen of
      `sw` by `sh` pixels: each pass places, in name order, every name of the
      worklist whose anchor is already placed, and the first pass that places
      nothing ends the loop. A name is placed exactly when its `attach_to`
      chain reaches "screen", and then where that chain puts it; names on a
      cycle or on a dangling anchor stay absent. */
  method ResolvePositions(decls: map<string, Attachment>, sw: int, sh: int) returns (pos: map<string, Rect>)
    requires ScreenName !in decls
    ensures ScreenName in pos && pos[ScreenName] == Rect(0, 0, sw, sh)
    ensures forall n :: n in pos <==> n == ScreenName || (n in decls && Reaches(decls, sw, sh, n))
    ensures forall n :: n in pos ==> ResolvesTo(decls, sw, sh, n, pos[n])
  {
    pos := map[ScreenName := Rect(0, 0, sw, sh)];
    ghost var rank: map<string, nat> := map[ScreenName := 0];
    var elementsToUpdate := decls.Keys;
    var recievedUpdate := true;
    while recievedUpdate
      invariant elementsToUpdate <= decls.Keys
      invariant pos.Keys == {ScreenName} + (decls.Keys - elementsToUpdate)
      invariant Sound(decls, sw, sh, pos, rank)
      invariant !recievedUpdate ==>
                  forall m :: m in elementsToUpdate ==> decls[m].attachTo !in pos
      decreases |elementsToUpdate| + (if recievedUpdate then 1 else 0)
    {
      var newElements;
      ghost var before := elementsToUpdate;
      pos, rank, newElements := PlacePass(decls, sw, sh, pos, rank, elementsToUpdate);
      recievedUpdate := newElements != {};
      // erase every newly placed name from the worklist
      elementsToUpdate := elementsToUpdate - newElements;
      WorklistShrinks(decls.Keys, before, newElements);
    }
    FixpointResolves(decls, sw, sh, pos, rank, elementsToUpdate);
  }

  /** `GuiEngine`: the declaration store `_attachments`, the resolved
      positions `_attachment_pos` and the screen size. */
  class GuiEngine {
    var screenW: int
    var screenH: int
    var attachments: map<string, Attachment>
    var attachmentPos: map<string, Rect>

    constructor ()
      ensures screenW == 0 && screenH == 0
      ensures attachments == map[] && attachmentPos == map[]
    {
      screenW, screenH := 0, 0;
      attachments, attachmentPos := map[], map[];
    }

    /** `set_screen_size`. */
    method SetScreenSize(w: int, h: int)
      modifies this
      ensures screenW == w && screenH == h
      ensures attachments == old(attachments) && attachmentPos == old(attachmentPos)
    {
      screenW, screenH := w, h;
    }

    /** `element_attach`: inserts or replaces every field of the entry. */
    method ElementAttach(name: string, w: int, h: int, attachTo: string, loc: AttachLocation, layer: int)
      modifies this
      ensures attachments == old(attachments)[name := Attachment(w, h, attachTo, loc, layer)]
      ensures attachmentPos == old(attachmentPos)
      ensures screenW == old(screenW) && screenH == old(screenH)
    {
      attachments := attachments[name := Attachment(w, h, attachTo, loc, layer)];
    }

    /** `element_remove`: a no-op for an undeclared name. */
    method ElementRemove(name: string)
      modifies this
      ensures attachments == old(attachments) - {name}
      ensures attachmentPos == old(attachmentPos)
      ensures screenW == old(screenW) && screenH == old(screenH)
    {
      attachments := attachments - {name};
    }

    /** `contains_element` as written: `_attachments.count(name) == 0`. */
    method ContainsElementAsWritten(name: string) returns (b: bool)
      ensures b <==> name !in attachments
    {
      b := |attachments.Keys * {name}| == 0;
    }

    /** `contains_element` as its name and its `TextureLayout` twin intend. */
    method ContainsElement(name: string) returns (b: bool)
      ensures b <==> name in attachments
    {
      b := |attachments.Keys * {name}| != 0;
    }

    /** `clear`: empties both maps. */
    method Clear()
      modifies this
      ensures attachments == map[] && attachmentPos == map[]
      ensures screenW == old(screenW) && screenH == old(screenH)
    {
      attachments, attachmentPos := map[], map[];
    }

    /** `element_list`: the declared names in map order. */
    method ElementList() returns (keys: seq<string>)
      ensures Ascending(keys)
      ensures forall n :: n in keys <==> n in attachments
    {
      keys := SortedKeys(attachments.Keys);
    }

    /** `get_element_attachment`: `operator[]` inserts a default entry for an
        undeclared name and returns it. */
    method GetElementAttachment(name: string) returns (a: Attachment)
      modifies this
      ensures name in old(attachments) ==> attachments == old(attachments)
      ensures name !in old(attachments) ==> attachments == old(attachments)[name := DefaultAttachment]
      ensures a == attachments[name]
      ensures attachmentPos == old(attachmentPos)
      ensures screenW == old(screenW) && screenH == old(screenH)
    {
      if name !in attachments {
        attachments := attachments[name := DefaultAttachment];
      }
      a := attachments[name];
    }

    /** `build`: recomputes every position from the declarations (see
        `ResolvePositions`). */
    method Build()
      requires ScreenName !in attachments
      modifies this
      ensures attachments == old(attachments)
      ensures screenW == old(screenW) && screenH == old(screenH)
      ensures ScreenName in attachmentPos && attachmentPos[ScreenName] == Rect(0, 0, screenW, screenH)
      ensures forall n :: n in attachmentPos <==>
                n == ScreenName || (n in attachments && Reaches(attachments, screenW, screenH, n))
      ensures forall n :: n in attachmentPos ==> ResolvesTo(attachments, screenW, screenH, n, attachmentPos[n])
    {
      attachmentPos := ResolvePositions(attachments, screenW, screenH);
    }

    /** `get_xy_element`: the resolved element of highest layer strictly
        containing the point, the first in name order among equals; "screen"
        when there is none. The layer is read through `operator[]`, and only
        for a rectangle that contains the point, so each such placed name
        that is not declared (a name removed since the last `build`, or
        "screen" itself) is declared afresh with the default attachment,
        whose layer -1 never wins. */
    method GetXyElement(px: int, py: int) returns (name: string)
      modifies this
      ensures screenW == old(screenW) && screenH == old(screenH) && attachmentPos == old(attachmentPos)
      ensures forall n :: n in attachments <==>
                n in old(attachments) || (n in attachmentPos && InsideRect(attachmentPos[n], px, py))
      ensures forall n :: n in attachments ==>
                attachments[n] == if n in old(attachments) then old(attachments)[n] else DefaultAttachment
      ensures (forall n :: !Hit(old(attachments), attachmentPos, px, py, n)) ==> name == ScreenName
      ensures (exists n :: Hit(old(attachments), attachmentPos, px, py, n)) ==>
                && Hit(old(attachments), attachmentPos, px, py, name)
                && (forall n :: Hit(old(attachments), attachmentPos, px, py, n) ==>
                      LayerOf(old(attachments), n) <= LayerOf(old(attachments), name))
                && (forall n :: (Hit(old(attachments), attachmentPos, px, py, n) && n != name &&
                      LayerOf(old(attachments), n) == LayerOf(old(attachments), name)) ==> Less(name, n))
    {
      ghost var decls := attachments;
      var pos := attachmentPos;
      var keys := SortedKeys(pos.Keys);
      name := ScreenName;
      var attachmentLayer := -1;
      for i := 0 to |keys|
        invariant screenW == old(screenW) && screenH == old(screenH) && attachmentPos == pos
        invariant DefaultsSoFar(decls, pos, px, py, keys, i, attachments)
        invariant BestSoFar(decls, pos, px, py, keys, i, name, attachmentLayer)
      {
        ghost var cur, name0, layer0 := attachments, name, attachmentLayer;
        var rect := pos[keys[i]];
        var hit := false;
        if InsideRect(rect, px, py) {
          if keys[i] !in attachments {
            attachments := attachments[keys[i] := DefaultAttachment];
          }
          DefaultsStep(decls, pos, px, py, keys, i, cur, attachments);
          var layer := attachments[keys[i]].layer;
          if layer > attachmentLayer {
            hit := true;
            name := keys[i];
            attachmentLayer := layer;
          }
        } else {
          DefaultsStep(decls, pos, px, py, keys, i, cur, attachments);
        }
        BestStep(decls, pos, px, py, keys, i, name0, layer0, hit, name, attachmentLayer);
      }
      DefaultsFinal(decls, pos, px, py, keys, attachments);
      BestFinal(decls, pos, px, py, keys, name, attachmentLayer);
    }

    /** `get_element_pos`: the resolved rectangle, or all zeros for a name
        that is not resolved. */
    function GetElementPos(name: string): (r: Rect)
      reads this
      ensures name in attachmentPos ==> r == attachmentPos[name]
      ensures name !in attachmentPos ==> r == Rect(0, 0, 0, 0)
    {
      if name in attachmentPos then attachmentPos[name] else Rect(0, 0, 0, 0)
    }

    /** `rect_to_rect_gl` with the current screen size: mapping the result
        back to pixels gives `r`. */
    function RectToRectGl(r: Rect): (g: RectGL)
      reads this
      requires screenW != 0 && screenH != 0
      ensures GlToRect(g, screenW, screenH) == RectGL(r.x as real, r.y as real, r.w as real, r.h as real)
    {
      RectToGlInverse(r, screenW, screenH);
      RectToGl(r, screenW, screenH)
    }

    /** `get_element_gl_pos`: all zeros for a name that is not resolved. */
    function GetElementGlPos(name: string): (g: RectGL)
      reads this
      requires name in attachmentPos ==> screenW != 0 && screenH != 0
      ensures name in attachmentPos ==> g == RectToGl(attachmentPos[name], screenW, screenH)
      ensures name !in attachmentPos ==> g == RectGL(0.0, 0.0, 0.0, 0.0)
    {
      if name in attachmentPos then RectToRectGl(attachmentPos[name]) else RectGL(0.0, 0.0, 0.0, 0.0)
    }
  }

  /** Right after `element_attach(name, ...)`, `contains_element(name)`
      as written answers false, where the intended check answers true. */
  method ContainsAfterAttachExample(name: string) returns (written: bool, intended: bool)
    ensures !written && intended
  {
    var engine := new GuiEngine();
    engine.ElementAttach(name, 100, 50, ScreenName, TopLeftToTopLeft, 0);
    written := engine.ContainsElementAsWritten(name);
    intended := engine.ContainsElement(name);
  }

  /** `TextureLayout::get_element_gl_pos`: atlas pixels to UV, no y flip. */
  function AtlasToUv(r: Rect, tw: int, th: int): RectGL
    requires tw != 0 && th != 0
  {
    RectGL(r.x as real / tw as real, r.y as real / th as real, r.w as real / tw as real, r.h as real / th as real)
  }

  /** A region lying inside the atlas maps into the unit square, and scaling
      back by the atlas size gives the pixel rectangle. */
  lemma AtlasToUvInUnitSquare(r: Rect, tw: int, th: int)
    requires tw > 0 && th > 0
    requires 0 <= r.x && 0 <= r.w && r.x + r.w <= tw
    requires 0 <= r.y && 0 <= r.h && r.y + r.h <= th
    ensures var g := AtlasToUv(r, tw, th);
      && 0.0 <= g.x && g.x + g.w <= 1.0 && 0.0 <= g.w
      && 0.0 <= g.y && g.y + g.h <= 1.0 && 0.0 <= g.h
      && g.x * tw as real == r.x as real && g.y * th as real == r.y as real
      && g.w * tw as real == r.w as real && g.h * th as real == r.h as real
  {
    UnitAxis(r.x, r.w, tw);
    UnitAxis(r.y, r.h, th);
  }

  /** One axis of `AtlasToUvInUnitSquare`. */
  lemma {:induction false} UnitAxis(x: int, w: int, t: int)
    requires t > 0 && 0 <= x && 0 <= w && x + w <= t
    ensures var a, b := x as real / t as real, w as real / t as real;
      0.0 <= a && 0.0 <= b && a + b <= 1.0 && a * t as real == x as real && b * t as real == w as real
  {
    var T := t as real;
    var a, b := x as real / T, w as real / T;
    assert a * T == x as real;
    assert b * T == w as real;
    assert (a + b) * T == (x + w) as real;
    assert (1.0 - (a + b)) * T == T - (x + w) as real >= 0.0;
  }

  /** `TextureLayout`: named regions of a texture atlas. */
  class TextureLayout {
    var elementPos: map<string, Rect>
    var textureWidth: int
    var textureHeight: int

    constructor ()
      ensures elementPos == map[] && textureWidth == 0 && textureHeight == 0
    {
      elementPos, textureWidth, textureHeight := map[], 0, 0;
    }

    /** `set_texture_size`. */
    method SetTextureSize(w: int, h: int)
      modifies this
      ensures textureWidth == w && textureHeight == h && elementPos == old(elementPos)
    {
      textureWidth, textureHeight := w, h;
    }

    /** `add_element`: inserts or replaces the region. */
    method AddElement(name: string, x: int, y: int, w: int, h: int)
      modifies this
      ensures elementPos == old(elementPos)[name := Rect(x, y, w, h)]
      ensures textureWidth == old(textureWidth) && textureHeight == old(textureHeight)
    {
      elementPos := elementPos[name := Rect(x, y, w, h)];
    }

    /** `remove_element`. */
    method RemoveElement(name: string)
      modifies this
      ensures elementPos == old(elementPos) - {name}
      ensures textureWidth == old(textureWidth) && textureHeight == old(textureHeight)
    {
      elementPos := elementPos - {name};
    }

    /** `contains_element`: `count(name) != 0`. */
    method ContainsElement(name: string) returns (b: bool)
      ensures b <==> name in elementPos
    {
      b := |elementPos.Keys * {name}| != 0;
    }

    /** `element_list`: region names in map order. */
    method ElementList() returns (keys: seq<string>)
      ensures Ascending(keys)
      ensures forall n :: n in keys <==> n in elementPos
    {
      keys := SortedKeys(elementPos.Keys);
    }

    /** `get_element_pos` of a registered name. */
    function GetElementPos(name: string): (r: Rect)
      reads this
      requires name in elementPos
      ensures r == elementPos[name]
    {
      elementPos[name]
    }

    /** `get_element_gl_pos` of a registered name. */
    function GetElementGlPos(name: string): (g: RectGL)
      reads this
      requires name in elementPos
      requires textureWidth != 0 && textureHeight != 0
      ensures g == AtlasToUv(elementPos[name], textureWidth, textureHeight)
    {
      AtlasToUv(elementPos[name], textureWidth, textureHeight)
    }
  }
}
