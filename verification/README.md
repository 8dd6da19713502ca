# vicmil-util core, modelled in Dafny

This project models the logic of the `vicmil-util` C++ header library, and
proves properties of the model. Every SDL, OpenGL, stb, tinyobj, miniz and
JavaScript call is abstracted away. `float` and `double` become exact `real`
arithmetic.

The modules follow the headers:

- `Gui` (gui_engine.dfy) — `GuiEngine` from `util_opengl.hpp`.
  - A declaration store of named elements, each attached by a corner to an anchor.
  - `build`: the worklist fixed point that places every element reachable from `"screen"`.
  - `get_xy_element`: the hit test by layer.
  - `rect_to_rect_gl`: the pixel-to-normalized mapping.
  - The atlas class `TextureLayout`.
- `TextEditing` (text_input.dfy) — `TextInput::update` as a state machine over an abstract event datatype (typed text, composition, backspace, return, arrows, paste), plus `getInputTextUTF8WithCursor`.
- `StdStrings`, `Utf8`, `Base64`, `StdMath`, `StdVectors` — the helpers of `util_std.hpp`.
  - `Utf8` follows the byte layout of section 3 of RFC 3629.
  - `Base64` follows the alphabet and padding of section 4 of RFC 4648.
- `StbImage` and `Fonts` — `RectT`, the RGBA image buffer and the glyph placement loops of `util_stb.hpp`. Font metrics are an abstract `Metrics` value.
- `ObjLoader` — `_load_obj_file` over the tinyobj parse result given as values, and the `Mesh` getters.
- `GoogleSheet` — the sheet id extraction and the CSV parser of `util_google.hpp`.
- `Mime` — `get_mime_type` of `util_js.hpp`.
- `MinizFilemap` — `filemap_files_with_extension` of `util_miniz.hpp`.
- `StringOrder` — `std::string`'s `operator<` and the ascending key order in which `std::map` is iterated.
- Shared definitions: `Results` (Option/Result), `Bytes`, `Slices`.

Where the source mutates an object, the model is a class whose methods update fields. Where the source loops, the model is a method with a loop proved against a specification function. Expression-only code is modelled as functions.

## Model

| member | source | states |
|---|---|---|
| Gui.InsideRect | include/util_opengl.hpp:1279-1284 | a point is inside only when it is strictly within all four edges, so a rect less than 2 pixels wide or high contains no point |
| Gui.InsideRectExcludesEdges | include/util_opengl.hpp:1279-1284 | `inside_rect` is strict: a point on any of the four edges is not inside |
| Gui.PlaceMeetsCorner | include/util_opengl.hpp:1359-1367 | the placed rect keeps the declared w and h, and its chosen corner coincides with the chosen corner of the anchor's rect (both directions) |
| Gui.ResolveMonotone | include/util_opengl.hpp:1345-1374 | once a name resolves along its attach_to chain, longer chains give the same rect |
| Gui.ResolvesToUnique | include/util_opengl.hpp:1345-1374 | a name resolves to at most one rectangle |
| Gui.ResolvedPosition | include/util_opengl.hpp:1359-1367 | a resolved non-screen name is declared, its anchor is resolved, and its rect is the corner placement relative to the anchor's rect |
| Gui.CycleNeverResolves | include/util_opengl.hpp:1345-1374 | no element on a closed cycle of attach_to links (one that avoids "screen") ever resolves, whatever the cycle's length |
| Gui.PanelButtonScenario | include/util_opengl.hpp:1343-1367 | a panel on the screen and a button on the panel resolve to the expected rects |
| Gui.PanelButtonBuild | include/util_opengl.hpp:1310-1396 | on a fresh engine with a 200×200 screen, attaching the panel and the button, then `build` and `get_element_pos`, give (0, 0, 100, 50) and (0, 0, 40, 20) |
| Gui.DefaultPlacesAtAnchor | include/util_opengl.hpp:1225-1256 | the default `Attachment` (0×0, attach_loc `null_` = 1, layer -1) puts the element's top-right corner on the anchor's top-left: the rect is (anchor x, anchor y, 0, 0) |
| Gui.SoundResolves | include/util_opengl.hpp:1345-1374 | every entry of the loop's resolved map is what its chain resolves to |
| Gui.StuckNeverResolves | include/util_opengl.hpp:1347-1374 | when no worklist name has a resolved anchor, none of them ever resolves |
| Gui.SoundExtend | include/util_opengl.hpp:1359-1370 | placing one more element whose anchor is placed keeps the resolved map sound |
| Gui.FixpointResolves | include/util_opengl.hpp:1345-1374 | at the loop's exit, a name is placed iff it is "screen" or its attach_to links reach "screen", and each placed rect is the one its chain gives |
| Gui.WorklistShrinks | include/util_opengl.hpp:1347-1374 | a pass that placed something strictly shrinks the worklist (termination) |
| Gui.PlacePass | include/util_opengl.hpp:1348-1372 | one pass places only worklist names, keeps the map sound, and places nothing only when no worklist anchor is resolved |
| Gui.ResolvePositions | include/util_opengl.hpp:1342-1375 | "screen" is (0, 0, W, H); a name is placed iff it reaches "screen"; every placed rect is its chain's placement |
| Gui.RectToGl | include/util_opengl.hpp:1397-1404 | x and w are fractions of the screen width mapped onto [-1, 1] and a width of 2; y is flipped so that the top edge is 1 |
| Gui.RectToGlInverse | include/util_opengl.hpp:1397-1405 | `rect_to_rect_gl` is invertible: mapping back gives the pixel rect |
| Gui.ScreenMapsToUnitSquare | include/util_opengl.hpp:1397-1405 | (0, 0, W, H) maps to (-1, 1, 2, 2) |
| Gui.GuiEngine.constructor | include/util_opengl.hpp:1223-1266 | both maps start empty |
| Gui.GuiEngine.SetScreenSize | include/util_opengl.hpp:1310-1313 | sets the screen size and nothing else |
| Gui.GuiEngine.ElementAttach | include/util_opengl.hpp:1314-1316 | replaces every field of the declaration of that name; nothing else changes |
| Gui.GuiEngine.ElementRemove | include/util_opengl.hpp:1317-1319 | deletes the declaration (no-op if absent); nothing else changes |
| Gui.GuiEngine.ContainsElementAsWritten | include/util_opengl.hpp:1320-1322 | as written: true exactly when the name is not declared |
| Gui.GuiEngine.ContainsElement | include/util_opengl.hpp:1320-1322 | corrected: true exactly when the name is declared |
| Gui.ContainsAfterAttachExample | include/util_opengl.hpp:1314-1322 | right after attaching a name, the as-written check says false and the corrected one true |
| Gui.GuiEngine.Clear | include/util_opengl.hpp:1323-1326 | both maps become empty; the screen size is kept |
| Gui.GuiEngine.ElementList | include/util_opengl.hpp:1327-1337 | the declared names, each once, in ascending map order |
| Gui.GuiEngine.GetElementAttachment | include/util_opengl.hpp:1338-1341 | returns the declaration; for an undeclared name `operator[]` inserts and returns the default entry (0×0, no anchor, attach_loc `null_` = 1, layer -1) |
| Gui.GuiEngine.Build | include/util_opengl.hpp:1342-1375 | declarations untouched; "screen" is the whole screen; a name is placed iff its links reach "screen"; each placed rect follows the corner formula along the chain |
| Gui.GuiEngine.GetXyElement | include/util_opengl.hpp:1377-1389 | "screen" when no resolved rect strictly contains the point; otherwise a containing element of maximal layer, ties going to the smallest name; layers ≤ -1 never win; every placed name whose rect strictly contains the point and that had no declaration gains the default one (layer -1), and nothing else changes |
| Gui.GuiEngine.RectToRectGl | include/util_opengl.hpp:1397-1404 | the GL rect for the current screen size, which maps back to the pixel rect |
| Gui.GuiEngine.GetElementPos | include/util_opengl.hpp:1390-1396 | the resolved rect, or all zeros for an unresolved name |
| Gui.GuiEngine.GetElementGlPos | include/util_opengl.hpp:1406-1412 | the converted resolved rect, or all zeros for an unresolved name |
| Gui.AtlasToUvInUnitSquare | include/util_opengl.hpp:1447-1455 | a region inside the atlas maps into the unit square with no y flip, and scaling back gives the pixel rect |
| Gui.TextureLayout.constructor | include/util_opengl.hpp:1414-1419 | no regions, zero texture size |
| Gui.TextureLayout.SetTextureSize | include/util_opengl.hpp:1420-1423 | sets the texture size, keeps the regions |
| Gui.TextureLayout.AddElement | include/util_opengl.hpp:1424-1426 | inserts or replaces the region |
| Gui.TextureLayout.RemoveElement | include/util_opengl.hpp:1427-1429 | deletes the region |
| Gui.TextureLayout.ContainsElement | include/util_opengl.hpp:1430-1432 | true exactly when the region exists |
| Gui.TextureLayout.ElementList | include/util_opengl.hpp:1433-1443 | the region names in ascending order |
| Gui.TextureLayout.GetElementPos | include/util_opengl.hpp:1444-1446 | the stored region of a registered name |
| Gui.TextureLayout.GetElementGlPos | include/util_opengl.hpp:1447-1455 | the region divided by the texture size |
| TextEditing.Step | include/util_opengl.hpp:1122-1171 | one event keeps cursor ≤ length, and an event that does not act leaves the state unchanged |
| TextEditing.Run | include/util_opengl.hpp:1119-1175 | the same over a whole event list |
| TextEditing.TypedTextInserted | include/util_opengl.hpp:1124-1132 | typed text is inserted at the cursor, the cursor moves past it, and the composition is cleared |
| TextEditing.PastedTextInserted | include/util_opengl.hpp:1158-1169 | pasted text is inserted at the cursor, the cursor moves past it, and the composition is kept |
| TextEditing.ReturnInsertsNewline | include/util_opengl.hpp:1143-1149 | Return inserts '\n' at the cursor, advances it, and clears the composition |
| TextEditing.BackspaceDeletesBeforeCursor | include/util_opengl.hpp:1138-1142 | Backspace deletes the code point before the cursor; at position 0 it does nothing |
| TextEditing.ArrowsStayInBounds | include/util_opengl.hpp:1150-1157 | Left and Right move the cursor by one only within bounds and report whether they acted |
| TextEditing.BackspaceUndoesTyping | include/util_opengl.hpp:1124-1142 | typing one code point and then Backspace restores the text and cursor |
| TextEditing.LeftThenRight | include/util_opengl.hpp:1150-1157 | Left then Right restores the state when the cursor is not at 0 |
| TextEditing.RunAppend | include/util_opengl.hpp:1119-1175 | processing a + b is processing a, then b |
| TextEditing.WithCursor | include/util_opengl.hpp:1198-1211 | the text with one extra code point |
| TextEditing.WithCursorShape | include/util_opengl.hpp:1198-1211 | '\|' sits at the clamped cursor, and removing it gives the text back |
| TextEditing.TextInput.constructor | include/util_opengl.hpp:1108-1118 | empty text and composition, cursor 0 |
| TextEditing.TextInput.HandleEvent | include/util_opengl.hpp:1123-1171 | the new state is `Step` of the old one |
| TextEditing.TextInput.Update | include/util_opengl.hpp:1119-1175 | the new state is `Run` of the old one over the events; the result says whether any event acted |
| TextEditing.TextInput.GetInputTextUtf8WithCursor | include/util_opengl.hpp:1198-1211 | exactly the UTF-8 encoding of the text with '\|' inserted at the cursor clamped to the text length; it decodes back to that text, and is one byte longer than the encoding of the text |
| StdStrings.FindFrom | include/util_std.hpp:325-334 | the first occurrence at or after `from`, or none |
| StdStrings.Find | include/util_std.hpp:325-334 | `std::string::find`: the first occurrence, present iff the pattern occurs |
| StdStrings.FindLastBelow | include/util_std.hpp:336-345 | the last occurrence at or below the bound |
| StdStrings.FindLast | include/util_std.hpp:336-345 | `std::string::rfind`: the last occurrence, present iff the pattern occurs |
| StdStrings.PadStr | include/util_std.hpp:81-86 | length max(\|s\|, length), starts with s, the rest spaces |
| StdStrings.IndexOf | include/util_std.hpp:89-109 | the first index of the separator, or the length |
| StdStrings.Split | include/util_std.hpp:89-109 | `split_string` equals `SplitString`: no pieces for "", otherwise the pieces between separators |
| StdStrings.JoinPieces | include/util_std.hpp:89-109 | joining the pieces with the separator gives the input back |
| StdStrings.PiecesAvoidSeparator | include/util_std.hpp:89-109 | no piece contains the separator |
| StdStrings.PiecesCount | include/util_std.hpp:89-109 | piece count = separator count + 1 |
| StdStrings.PiecesOfJoin | include/util_std.hpp:89-109 | splitting a join of separator-free pieces gives the pieces back |
| StdStrings.StringReplace | include/util_std.hpp:291-302 | with non-empty `str_from`, the loop computes `Replace`: left-to-right, non-overlapping replacement |
| StdStrings.ReplaceAbsent | include/util_std.hpp:291-302 | when `str_from` does not occur, the string is unchanged |
| StdStrings.ReplaceBySelf | include/util_std.hpp:291-302 | replacing a pattern by itself changes nothing |
| StdStrings.ReplaceRemovesPattern | include/util_std.hpp:291-302 | after replacing a character by text without it, the character is gone |
| StdStrings.ReplaceCharIsSplitJoin | include/util_std.hpp:291-302 | replacing a character is splitting on it and joining with the replacement |
| StdStrings.CutOffAfterFind | include/util_std.hpp:325-334 | a prefix of `str`, all of it when the delimiter is absent, else ending just before the first occurrence |
| StdStrings.CutOffAfterFindAvoids | include/util_std.hpp:325-334 | the result holds no occurrence of a non-empty delimiter |
| StdStrings.CutOffAfterRfind | include/util_std.hpp:336-345 | a prefix of `str`, all of it when the delimiter is absent, else ending just before the last occurrence |
| StdStrings.CutOffEmptyDelimiter | include/util_std.hpp:325-345 | an empty delimiter cuts everything with `find` and nothing with `rfind` |
| Utf8.EncodeOne | include/util_std.hpp:385-405 | 1 to 4 bytes by range, every continuation byte in 0x80..0xBF |
| Utf8.UnicodeToUtf8 | include/util_std.hpp:385-405 | the loop computes `Encode`, and its output decodes back to the input |
| Utf8.Utf8ToUnicodeCodePoints | include/util_std.hpp:358-382 | the loop computes `Decode` of well-formed input |
| Utf8.DecodeEncodeOne | include/util_std.hpp:358-405 | the lead byte of an encoded code point announces its length, and decoding gives the code point back |
| Utf8.DecodeEncode | include/util_std.hpp:358-405 | `utf8ToUnicodeCodePoints(unicodeToUtf8(cps)) == cps` for every code point ≤ 0x1FFFFF |
| Utf8.AsciiEncodesToItself | include/util_std.hpp:385-405 | ASCII code points encode to themselves |
| Utf8.EncodeAppend | include/util_std.hpp:385-405 | encoding distributes over concatenation |
| Base64.IndexOf | include/util_std.hpp:432-461 | `base64_chars.find(c)` inverts the alphabet |
| Base64.IndexOfCharOf | include/util_std.hpp:408-461 | each sextet's character is in the alphabet and maps back to the sextet |
| Base64.EncodeLength | include/util_std.hpp:408-430 | output length is 4·⌈n/3⌉, a multiple of 4 |
| Base64.EncodeCharacters | include/util_std.hpp:408-430 | output characters are alphabet characters, with '=' only in the last two places |
| Base64.ToBase64 | include/util_std.hpp:408-430 | the bit-accumulator loop computes the group-wise encoding `Encode` |
| Base64.Decode | include/util_std.hpp:432-461 | an error iff the length is not a multiple of 4; otherwise the decoded length accounts for the padding |
| Base64.Base64Decode | include/util_std.hpp:432-461 | the loop over groups and the final resize compute `Decode` |
| Base64.DecodeEncode | include/util_std.hpp:408-461 | `base64_decode(to_base64(d)) == d` for non-empty d |
| Base64.GroupRoundTrip | include/util_std.hpp:408-461 | one three-byte group decodes back to its bytes |
| Base64.GroupsRoundTrip | include/util_std.hpp:408-461 | the full groups decode back to the input prefix |
| Base64.TailRoundTrip | include/util_std.hpp:422-427 | a 1- or 2-byte tail decodes back, with 2 or 1 '=' |
| StdMath.IsPowerOfTwoCorrect | include/util_std.hpp:716-718 | `is_power_of_two(x)` iff x = 2^k |
| StdMath.ClearLowestBit | include/util_std.hpp:716-718 | for x > 0, `x & (x-1) == 0` iff x is a power of two |
| StdMath.UpperPowerOfTwo | include/util_std.hpp:723-729 | for x ≤ 2^30, the least power of two ≥ x (1 for x ≤ 1) |
| StdMath.InRange | include/util_std.hpp:755-763 | `in_range` iff min ≤ v ≤ max |
| StdVectors.InVector | include/util_std.hpp:776-783 | true iff some element equals val |
| StdVectors.GetMinInVector | include/util_std.hpp:785-793 | an element of the non-empty vector that bounds all others from below |
| StdVectors.GetMaxInVector | include/util_std.hpp:795-803 | an element of the non-empty vector that bounds all others from above |
| StdVectors.RemoveInserted | include/util_std.hpp:870-897 | removing what was just inserted gives the vector back |
| StdVectors.InsertRemoved | include/util_std.hpp:870-897 | re-inserting what was removed gives the vector back |
| StdVectors.EditCounts | include/util_std.hpp:870-897 | insert adds exactly the value to the multiset; remove takes exactly the erased element |
| StdVectors.Vector.constructor | include/util_std.hpp:870-897 | the vector holds the given elements |
| StdVectors.Vector.Remove | include/util_std.hpp:870-875 | the element at `pos` is erased and later ones shift down |
| StdVectors.Vector.Extend | include/util_std.hpp:884-886 | the other vector is appended |
| StdVectors.Vector.Insert | include/util_std.hpp:895-897 | val is inserted before `index` and later ones shift up |
| StdVectors.Removed | include/util_std.hpp:870-875 | one shorter; earlier elements kept, later ones shifted down |
| StdVectors.Inserted | include/util_std.hpp:895-897 | one longer, val at index; earlier elements kept, later ones shifted up |
| StringOrder.LessIrreflexive | include/util_opengl.hpp:1327-1337 | `std::string` `<` is irreflexive |
| StringOrder.LessTransitive | include/util_opengl.hpp:1327-1337 | `<` is transitive |
| StringOrder.LessTotal | include/util_opengl.hpp:1327-1337 | any two distinct strings are ordered |
| StringOrder.LessAsymmetric | include/util_opengl.hpp:1327-1337 | `<` is asymmetric |
| StringOrder.LeastExists | include/util_opengl.hpp:1327-1337 | a non-empty key set has a smallest key |
| StringOrder.SortedKeys | include/util_opengl.hpp:1327-1337 | the keys of a `std::map`, each once, in ascending order |
| StbImage.Rect.MinX | include/util_stb.hpp:60-62 | the left edge x, not right of `max_x` when w ≥ 0 |
| StbImage.Rect.MaxX | include/util_stb.hpp:63-65 | the right edge x + w, not left of `min_x` when w ≥ 0 |
| StbImage.Rect.MinY | include/util_stb.hpp:66-68 | the top edge y, not below `max_y` when h ≥ 0 |
| StbImage.Rect.MaxY | include/util_stb.hpp:69-71 | the bottom edge y + h, not above `min_y` when h ≥ 0 |
| StbImage.Rect.IsInsideRect | include/util_stb.hpp:82-100 | inclusive on all four edges: min ≤ p ≤ max on both axes |
| StbImage.Rect.Equals | include/util_stb.hpp:113-119 | true iff all four fields are equal |
| StbImage.Rect.NotEquals | include/util_stb.hpp:120-122 | the negation of `==` |
| StbImage.ColorEquals | include/util_stb.hpp:31-36 | true iff all four channels are equal |
| StbImage.Idx | include/util_stb.hpp:155-157 | the pixel index y·w + x lies inside the buffer |
| StbImage.IdxInjective | include/util_stb.hpp:155-157 | distinct pixels have distinct indices |
| StbImage.IdxOnto | include/util_stb.hpp:155-157 | every buffer index is some pixel |
| StbImage.Resized | include/util_stb.hpp:139-143 | `std::vector::resize`: new length, old prefix kept, new pixels default |
| StbImage.FlipUnique | include/util_stb.hpp:219-227 | the vertical flip of a buffer is unique |
| StbImage.FlipTwice | include/util_stb.hpp:219-227 | flipping twice gives the buffer back |
| StbImage.FlipKeepsMiddleRow | include/util_stb.hpp:219-227 | with an odd height, the middle row is untouched |
| StbImage.Image.constructor | include/util_stb.hpp:135-138 | a 0×0 image with no pixels |
| StbImage.Image.Resize | include/util_stb.hpp:139-143 | w and h set, pixel count w·h, old pixels kept by index |
| StbImage.Image.GetPixel | include/util_stb.hpp:155-157 | the colour stored at row-major index y·w + x, one of the image's pixels; after `fill(c)` it is c everywhere, and after `flip_vertical` it is the old pixel of row h - 1 - y |
| StbImage.Image.Fill | include/util_stb.hpp:229-233 | every pixel becomes the colour; the size is unchanged |
| StbImage.Image.FlipVertical | include/util_stb.hpp:219-227 | row y and row h−1−y are swapped in every column |
| StbImage.Image.CopyToImage | include/util_stb.hpp:145-154 | `other[x+i, y+j] = this[i, j]` exactly for i < min(other.w−x, w) and j < min(other.h−y, h); other pixels of `other` unchanged |
| StbImage.Image.FlipColumn | include/util_stb.hpp:220-226 | one column is reversed, the others unchanged |
| StbImage.ColumnFlipped | include/util_stb.hpp:220-226 | after the inner loop the column is fully reversed |
| Fonts.Place | include/util_stb.hpp:365-400 | one rect per character |
| Fonts.PlaceNewline | include/util_stb.hpp:373-378 | a '\n' yields (0, 0, 0, 0) |
| Fonts.PlaceLine | include/util_stb.hpp:373-391 | a glyph's y is box.y + ascent + line_height × the number of earlier newlines; w and h are the box's |
| Fonts.LineStart | include/util_stb.hpp:373-388 | the first glyph after a '\n' starts at x = box.x + bearing |
| Fonts.AscentShift | include/util_stb.hpp:381-383 | changing the ascent shifts every glyph's y by the difference |
| Fonts.FontLoader.constructor | include/util_stb.hpp:284-293 | metrics, line height, ascent and descent as given |
| Fonts.FontLoader.SetLineHeightAsWritten | include/util_stb.hpp:313-322 | as written: the line height and the glyph metrics (the new scale) change; ascent and descent keep their old values |
| Fonts.FontLoader.SetLineHeight | include/util_stb.hpp:313-322 | corrected: line height, glyph metrics, ascent and descent all set |
| Fonts.PlaceStep | include/util_stb.hpp:373-397 | emitting one character's rect and moving the pen keeps the emitted rects a prefix of `Place` |
| Fonts.FontLoader.GetCharacterImagePositions | include/util_stb.hpp:365-400 | the loop computes `Place` from (0, 0) |
| Fonts.StaleAscentExample | include/util_stb.hpp:313-322 | after the as-written `set_line_height`, a glyph sits 24 pixels higher than intended |
| Fonts.FirstFont | include/util_stb.hpp:445-452 | the first font holding the glyph, or none |
| Fonts.MaxAscent | include/util_stb.hpp:467-475 | non-negative, and at least the ascent of each character's font |
| Fonts.MaxAscentAttained | include/util_stb.hpp:467-475 | the maximum is 0 or the ascent of some used font |
| Fonts.MultiPlace | include/util_stb.hpp:477-510 | one rect per shown character |
| Fonts.MultiPlaceStep | include/util_stb.hpp:478-508 | '\n' yields (x, 0, 0, 0) with the x from before the reset; an unsupported character is skipped; others are placed with their first font |
| Fonts.PlacedNewline | include/util_stb.hpp:479-484 | a '\n' emits (x, 0, 0, 0), moves down one line and keeps the emitted rects a prefix of `MultiPlace` |
| Fonts.PlacedSkip | include/util_stb.hpp:489-490 | a character no font has emits nothing and leaves the pen where it was |
| Fonts.PlacedGlyph | include/util_stb.hpp:492-508 | a character placed by its first font emits the glyph rect and moves the pen by that font's advance and kerning |
| Fonts.SingleFontAgrees | include/util_stb.hpp:365-512 | with one font holding every glyph, both loaders place glyphs the same way |
| Fonts.ShownAll | include/util_stb.hpp:489-490 | with one font holding every glyph, nothing is skipped |
| Fonts.MultiFontLoader.constructor | include/util_stb.hpp:420-422 | no fonts, line height 64 |
| Fonts.MultiFontLoader.FindFontWithCharacter | include/util_stb.hpp:445-452 | the position of the first loader holding the glyph, or none |
| Fonts.MultiFontLoader.CommonAscent | include/util_stb.hpp:467-475 | the loop computes `MaxAscent` |
| Fonts.MultiFontLoader.GetCharacterImagePositions | include/util_stb.hpp:461-512 | the two loops compute `MultiPlace` with the common ascent |
| Fonts.MultiFontLoader.PlaceWithAscent | include/util_stb.hpp:477-510 | the placement loop computes `MultiPlace` |
| ObjLoader.TexnameOr | include/util_obj_loader.hpp:288-302 | a texture name is copied only when non-empty |
| ObjLoader.ConvertMaterial | include/util_obj_loader.hpp:261-304 | every read field is copied; Ke and Kr keep their defaults |
| ObjLoader.LoadMaterials | include/util_obj_loader.hpp:259-305 | one output material per input material, in the same order |
| ObjLoader.ToUnsigned | include/util_obj_loader.hpp:316-325 | the int-to-unsigned conversion of `material_id`: below 2^32, the identity on 0..2^32−1 |
| ObjLoader.CornerVertex | include/util_obj_loader.hpp:324-346 | a vertex carries its face's material id and its coordinates; normal and texcoord keep their defaults when the index is negative |
| ObjLoader.TriangleCorners | include/util_obj_loader.hpp:311-351 | all-triangle faces use 3 corners each |
| ObjLoader.TrianglesFit | include/util_obj_loader.hpp:311-321 | the indices of the triangle faces exist |
| ObjLoader.ShapeVertices | include/util_obj_loader.hpp:311-352 | three vertices per face of a shape |
| ObjLoader.ShapeVertexAt | include/util_obj_loader.hpp:320-348 | vertex j of a shape is built from index j with the material of face j/3 |
| ObjLoader.AllVerticesLength | include/util_obj_loader.hpp:308-353 | three vertices per face across all shapes |
| ObjLoader.AllVertexAt | include/util_obj_loader.hpp:308-353 | shape i's vertices start at 3 × (faces of the earlier shapes) |
| ObjLoader.LoadObjFile | include/util_obj_loader.hpp:259-353 | an error iff some face is not a triangle; otherwise the vertices are the flattening, face k is (3k, 3k+1, 3k+2), vertices = 3·faces, and materials convert one to one |
| ObjLoader.LoadShapes | include/util_obj_loader.hpp:308-353 | the shape loop succeeds iff all faces are triangles, and builds the flattened vertices and numbered faces |
| ObjLoader.LoadShape | include/util_obj_loader.hpp:309-352 | one shape appends its vertices and numbered faces |
| ObjLoader.AddTriangle | include/util_obj_loader.hpp:316-351 | one face appends three vertices and the face (3k, 3k+1, 3k+2) |
| ObjLoader.AppendFace | include/util_obj_loader.hpp:318-350 | appending the next face keeps faces numbered |
| ObjLoader.GetVertexCoordinates | include/util_obj_loader.hpp:192-199 | same length and order as the vertices, their coordinates |
| ObjLoader.GetVertexTextureCoordinates | include/util_obj_loader.hpp:200-208 | same length and order, coordinates with texture coordinates |
| ObjLoader.GetVertexCoordinatesColors | include/util_obj_loader.hpp:209-224 | an error iff some material id ≥ the number of materials; otherwise each colour is its material's Kd |
| ObjLoader.GetTriangleCount | include/util_obj_loader.hpp:228-230 | the number of faces; by `LoadedTriangleCount`, one per input triangle, with three vertices each |
| ObjLoader.LoadedTriangleCount | include/util_obj_loader.hpp:228-230 | the triangle count of a loaded mesh is the number of faces, a third of the vertex count |
| GoogleSheet.ExtractSheetIdFromUrl | include/util_google.hpp:19-27 | "" without "/d/"; otherwise the text after the first "/d/" up to the next '/' or the end |
| GoogleSheet.LinesAvoidNewline | include/util_google.hpp:39 | no line read by `getline` holds a newline |
| GoogleSheet.TrailingNewline | include/util_google.hpp:39 | a trailing newline adds no line |
| GoogleSheet.Fields | include/util_google.hpp:44-57 | a line always has at least one (possibly empty) cell under construction |
| GoogleSheet.FieldsAvoidQuote | include/util_google.hpp:49-50 | a '"' is never copied into a cell |
| GoogleSheet.FieldsCount | include/util_google.hpp:51-53 | one cell per comma outside quotes, plus one |
| GoogleSheet.FieldsJoin | include/util_google.hpp:46-57 | joining the cells with commas gives the line without its quotes, so commas inside quotes are kept as text |
| GoogleSheet.ParseLine | include/util_google.hpp:40-62 | the row of a line: the cells, the last one only when non-empty |
| GoogleSheet.ParseCsv | include/util_google.hpp:34-66 | one row per line read by `getline`, each the row of its line |
| Mime.FindLastOf | include/util_js.hpp:154 | `find_last_of('.')`: absent iff no '.', else a '.' with none after it |
| Mime.TypeOf | include/util_js.hpp:133-161 | octet-stream without '.'; otherwise the table entry of the suffix from the last '.' on, or octet-stream when unknown |
| Mime.GetMimeType | include/util_js.hpp:154-157 | without '.', "data:application/octet-stream" plus the base64 suffix |
| Mime.DataUrlPrefix | include/util_js.hpp:156-163 | starts with "data:" and ends with ";base64" iff the flag is set |
| Mime.KnownExtension | include/util_js.hpp:133-163 | a known extension at the end of the name decides the type, whatever precedes it |
| MinizFilemap.LastPiece | include/util_std.hpp:89-109 | the last piece of a split is the longest separator-free end of the string |
| MinizFilemap.ExtensionAfterLastDot | include/util_miniz.hpp:125 | a key's extension is the key itself when it has no '.', else the text after its last '.' |
| MinizFilemap.FilemapFilesWithExtension | include/util_miniz.hpp:121-130 | only keys, in ascending order, and a key is included iff its last '.'-segment equals the target |

## Left out

- Windowing and GPU plumbing (`Shader`, `GPUProgram`, buffers, textures, `Window`, input state), glm matrices and float vertex emission: foreign SDL/GL calls and float numerics.
- How SDL events are obtained, including the modifier state and the clipboard: events are an abstract datatype, and paste carries its text.
- Gui.GuiEngine.Build: requires that no declaration is named "screen". `get_xy_element` (modelled by Gui.GuiEngine.GetXyElement) reads layers through `operator[]`. For every placed name whose rect strictly holds the point, it inserts a default declaration if the name is undeclared; this covers "screen" and any name removed since the last `build`. So after a hit test inside the screen the engine holds a "screen" declaration, and a later `build`, which would then also place "screen" from that default declaration, is not modelled.
- Gui.RectToGl: requires a non-zero screen width and height. `GuiEngine`'s screen starts at 0×0 (util_opengl.hpp:1305-1306) until `set_screen_size`. The float division in `rect_to_rect_gl` (util_opengl.hpp:1399-1402) then gives infinities or NaN. That is not modelled.
- Gui.GuiEngine.RectToRectGl: requires a non-zero screen size, for the reason given for Gui.RectToGl.
- Gui.GuiEngine.GetElementGlPos: requires a non-zero screen size when the name is placed, for the reason given for Gui.RectToGl. For example, `build` then `get_element_gl_pos("screen")` on a fresh engine gives NaN in the source.
- TextureLayout.GetElementPos: requires a registered name; on a missing name the source inserts an uninitialised rect.
- Gui.TextureLayout.GetElementGlPos: requires a registered name and a non-zero texture size. On a missing name the source converts the uninitialised rect that `operator[]` inserts. On a fresh layout the texture size is 0, and the float division gives infinities or NaN. Neither is modelled.
- File, clock and runtime helpers of `util_std.hpp` (`FileManager`, time, sleep, type names, `to_binary_str`), `modulo` and the degree conversions: I/O, clocks, memory layout and double arithmetic.
- Base64.Decode: requires non-empty input made only of alphabet characters and '='. The source's behaviour on other characters and its out-of-range read on empty input are not modelled. The decoded length is stated as `4·(|r| + padding) == 3·len`.
- Base64.ToBase64: the `int` accumulator is unbounded; the source's overflow for long inputs is not modelled.
- StdMath.IsPowerOfTwoCorrect: only the `unsigned int` overload; the `int` overload is the same expression.
- StdMath.UpperPowerOfTwo: requires x ≤ 2^30, where the source's `int power` would overflow past 2^30.
- StdMath.InRange: only at `int`; the template is instantiated the same way at other types.
- StdStrings.PadStr: the length is a `nat`. The source takes an `int`; a negative one becomes a huge `size_t` in the comparison, and `resize` then throws. Every caller in util_std.hpp passes a non-negative constant.
- StdStrings.StringReplace: requires a non-empty `str_from`. With an empty one, `find` returns the current position every time, `remaining_string` never shrinks and `string_replace` never returns.
- Utf8.UnicodeToUtf8: code points are restricted to 0..0x1FFFFF. For a negative `int`, the source takes the one-byte branch and `static_cast<char>` keeps only the low 8 bits. Above 0x1FFFFF, `codePoint >> 18` spills into the lead byte's length bits. Neither is modelled.
- Utf8.Utf8ToUnicodeCodePoints: requires well-formed input (`Decodable`). Two cases are not modelled. A stray continuation byte or a lead byte of 0xF8 or more matches no branch, and the source pushes an uninitialised `codePoint`. A final sequence cut short reads past the last byte: one byte short reads the string's terminating '\0', and more is undefined.
- `vec_sum` and the sorting helpers of `util_std.hpp`: not part of this model.
- StbImage.Image.constructor: starts at 0×0 with no pixels; the source leaves w and h uninitialised.
- StbImage.Image.CopyToImage: requires `other` to be a different image, and x ≥ 0 and y ≥ 0. The source takes `int x, int y` and clips only at the right and bottom edges. `get_pixel` indexes `pixels[y·w + x]`, so a negative offset is not clipped. With x < 0, a write in a row y2 + y ≥ 1 wraps to the end of the previous row. With y2 + y = 0 and x2 + x < 0, or with y2 + y < 0, the write falls before the pixel buffer. Copying onto itself and negative offsets are not modelled.
- StbImage.Image.Resize: requires w and h below 2^31, as the source's `int` parameters are, and w·h < 2^32, so the unsigned product does not wrap.
- `RectT::center_x`/`center_y`, `Image_float`, and PNG load/save: float conversion and stb I/O.
- Fonts: stb metrics (bounding box, advance, bearing, kerning, glyph presence) at a given scale are the fields of an abstract `Metrics` value. `set_line_height` takes the metrics at the new scale and the scaled ascent and descent as parameters; the computation of the scale from the font's vertical metrics is not modelled. Font loading, rasterisation and `MultiFontLoader::set_line_height` (a loop over the loaders' `set_line_height`) are not modelled.
- Fonts.MultiFontLoader: its vector holds `FontLoader` values, so the loaders are `Face` values (metrics and ascent) rather than `FontLoader` objects. `find_font_with_character` returns the position of the loader its pointer designates.
- ObjLoader: tinyobj `LoadObj` and the material reader are abstracted. The vertex and face counts are unbounded integers, so the `int` overflow of the index is not modelled.
- ObjLoader: `shift_texture_coords` is not part of this model.
- ObjLoader: `MakeVertex` reads coordinates through a total accessor that falls back to 0.0. The fallback is never reached, because `IndicesInRange` is required.
- ObjLoader.ToUnsigned: the `int` to `unsigned int` conversion of `material_id` is written out modulo 2^32.
- GoogleSheet: `_read_sheet`, `on_data` and the JavaScript fetch are interop. `getline` is modelled as splitting at '\n'.
- `EM_ASM` helpers, `FileInputRequest`, `download_file`, the socket.io wrapper, miniz `extract_zip`/`load_files_from_zip`, and the build scripts: foreign calls, I/O and tooling.
- MinizFilemap.FilemapFilesWithExtension: requires every key to be non-empty, because `split_string("")` is empty and `.back()` is then undefined.

## Findings

| source | as written | input that shows it | evidently intended | confidence | as-written member | corrected member |
|---|---|---|---|---|---|---|
| include/util_opengl.hpp:1320-1322 | `contains_element` returns `_attachments.count(name) == 0`, i.e. true for undeclared names | `element_attach("panel", ...)` then `contains_element("panel")` gives false | `count(name) != 0`, as `TextureLayout::contains_element` does | high, not executed | Gui.GuiEngine.ContainsElementAsWritten, Gui.ContainsAfterAttachExample | Gui.GuiEngine.ContainsElement |
| include/util_stb.hpp:313-322 | `set_line_height` declares local `ascent`/`descent` that shadow the fields, so the fields keep their old values | a loader whose ascent field is 0, after `set_line_height` with scaled ascent 24: a glyph is placed 24 pixels higher than intended | assign the scaled metrics to the fields | high, not executed | Fonts.FontLoader.SetLineHeightAsWritten, Fonts.StaleAscentExample | Fonts.FontLoader.SetLineHeight |
