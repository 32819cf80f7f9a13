# Cubicat Spine port: frame mesh builder, texture loader and JS binding generator

This project is a Dafny model of three parts of the Cubicat port of the Spine
runtime.

- **SpineNode** (`cubicat-port/spine_node.cpp`). Each frame the node turns the
  skeleton's draw order into drawables:
  - The drawable pool grows to one drawable per slot.
  - The ordered skip rules of `nothingToDraw` decide each slot's visibility.
  - Additive and Multiply slots set the material's blend mode.
  - Region and Mesh attachments write their geometry. A Mesh goes through
    the process-wide scratch buffer of world positions, which only ever grows.
  - Textures are resolved through a map memoised by atlas-page path
    (`ASSIGN_TEXTURE`).
  - Clipping attachments and unknown kinds only call the clipper.

  The pure rules and the frame-level specification `SpineDraw.Update` are in
  `spine_draw.dfy`. The node itself is in `spine_node.dfy`, as a class whose
  methods update its fields in place. These include `unload`, `initialize`,
  the index wrapping of `getAnimationName` and `setSkinByIndex`, and
  `useBilinearFilter`.
- **CubicatTextureLoader** (`cubicat-port/texture_loader.cpp`). The loader:
  - dispatches on the resource location and the path extension;
  - checks the PNG header and chooses 3 or 4 bytes per pixel;
  - lays the decoded rows out in one buffer (the row-pointer array);
  - converts RGB pixels to RGB565 words in a new array;
  - rewrites RGBA pixels in place as 32-bit words, stored little-endian as on
    the ESP32.
- **js_api_generator** (`tools/js_api_generator.py`). The script scans the
  header lines between `[JS_BINDING_BEGIN]` and `[JS_BINDING_END]`. Each
  declaration there is turned into two pieces of text:
  - a JavaScript `ffi` stub (`gen_js_file`);
  - a C++ wrapper (`gen_cpp_file`), which prefixes methods with their class
    name, passes the object pointer first, and regroups expanded `float vec_*`
    components into one `Vector2f`/`Vector3f` argument.

  `py_str.dfy` gives the Python string builtins the script relies on
  (`find`, `rfind`, `strip`, `split`, `join`, `replace`), as functions over
  `seq<char>`. `js_api_generator.dfy` holds the two generators. The per-line
  scan is in `js_api_scan.dfy`. The script's three regular expressions are
  written out as hand-made matchers there:
  - `class (\w+)` becomes `FirstClassName`;
  - `\s*=\s*[^,)]+` becomes `StripDefaults`;
  - `\((.*?)\)` becomes `ParamGroup`.

The model keeps the behaviour of the code as written, including these cases:

- A clipping attachment outside the slot window is skipped.
- No clip is closed after the loop.
- Clipping slots and slots of unknown kind stay visible.
- A Normal slot never resets the blend mode.
- A missing texture leaves a null entry in the texture map.
- A negative index is converted to the 32-bit `size_t` before the remainder,
  so `-1` over three names picks the first one.
- In a parameter name, a `*` is kept, because the `removeprefix` result is
  discarded.
- Two adjacent vector parameters lose their arguments in the wrapper call.

Failure paths are modelled as outcomes (`Result` values, or a `stopped`
flag on the node's methods) rather than excluded by preconditions:

- an `assert(false)` in `loadPNG` for an unsupported header;
- the `substr` exception for a path shorter than four characters;
- the `assert False` for a line without a parameter list;
- the `IndexError` of a method without an object pointer;
- the nested-parenthesis loop that never ends;
- the index assertion of Spine's `Vector::removeAt(0)` in `setSkinByIndex` for skeleton data without any skin (the Spine runtime's `Vector` is not part of this model).

## Model

| member | source | states |
|---|---|---|
| Spine.CapacityAfter | cubicat-port/spine_node.cpp:23-31 | the recorded capacity after one request never decreases and is at least the request; it changes only when the request exceeds it, and then it becomes exactly the request |
| Spine.CapacityAfterAll | cubicat-port/spine_node.cpp:21-31 | after any sequence of requests the capacity is at least the starting one and at least every request, and it is the starting one or one of the requests |
| Spine.CapacityStep | cubicat-port/spine_node.cpp:284-285 | one slot of the draw order moves the capacity only when it is a rendered Mesh, by a request of worldVerticesLength / 2 vertices |
| Spine.VertexPositionsCache.constructor | cubicat-port/spine_node.cpp:21-22 | the globals start as a null buffer with recorded size 0 |
| Spine.VertexPositionsCache.Get | cubicat-port/spine_node.cpp:23-31 | a request above the recorded size allocates a fresh buffer of 2 floats per requested vertex; any other request returns the same buffer with its contents unchanged; the buffer always holds 2 floats per recorded vertex |
| Spine.WrapIndex | cubicat-port/spine_node.cpp:317-318 | `idx % size` with the int converted to a 32-bit size_t: the result is always below the size, equals idx mod size for idx >= 0, and is (idx + 2^32) mod size for a negative idx |
| Spine.MinusOneSelectsFirstOfThree | cubicat-port/spine_node.cpp:317-318 | index -1 over three entries selects entry 0, so the `idx < 0` correction never runs |
| Spine.SkinToSet | cubicat-port/spine_node.cpp:164-177 | an empty skin list is exactly the case where `removeAt(0)` stops the program; no skin is chosen exactly when the default skin is the only one; otherwise the chosen skin is never the default one (position 0), and for idx >= 0 it is 1 + idx mod (skins - 1) |
| Spine.SpineNode.constructor | cubicat-port/spine_node.cpp:96-97 | a new node has no drawables, an empty texture map and name list, null pointers and filtering off; every drawable shares the node's filter flag |
| Spine.SpineNode.Unload | cubicat-port/spine_node.cpp:122-147 | the drawables are detached, the texture map is emptied, and the skeleton, animation state, clipper, attachment loader and atlas become null; the animation-name list is not touched |
| Spine.SpineNode.SetSkinByIndex | cubicat-port/spine_node.cpp:164-177 | without a skeleton nothing changes; with one, the skeleton wears the skin SkinToSet picks, and it is unchanged when only the default skin exists; the program stops exactly when a skeleton has no skin at all, with the skeleton unchanged |
| Spine.SpineNode.Initialize | cubicat-port/spine_node.cpp:148-156 | the clipper and the animation state exist afterwards; every animation name of the skeleton data is appended, in order, to the existing list; the skeleton wears non-default skin 0; the program stops in `setSkinByIndex` exactly when the skeleton data has no skin |
| Spine.SpineNode.LoadWithBinaryFile | cubicat-port/spine_node.cpp:107-121 | the node is first unloaded and then gets an atlas and an attachment loader; when the skeleton data cannot be read it stays without a skeleton and the names are unchanged; otherwise it is initialised from the data, and the program stops exactly when that data has no skin |
| Spine.SpineNode.GetAnimationName | cubicat-port/spine_node.cpp:314-320 | "" for an empty list; otherwise always an element of the list, the one at idx mod size for idx >= 0 |
| Spine.SpineNode.UseBilinearFilter | cubicat-port/spine_node.cpp:321-327 | the node's flag becomes b and every drawable's material gets b; nothing else on a drawable changes and the pool keeps its size |
| Spine.SpineNode.AssignTexture | cubicat-port/spine_node.cpp:60-92 | the texture map becomes CacheTexture of the old map and the drawable's texture becomes MaterialTexture (the memoised lookup described below) |
| Spine.SpineNode.UpdateMesh | cubicat-port/spine_node.cpp:232-300 | the pool, texture map and clipper calls become SpineDraw.Update of the old ones; all drawables keep sharing the node's filter flag; the scratch capacity becomes CapacityAfterAll over the rendered meshes' requests |
| Spine.SpineNode.DrawOrder | cubicat-port/spine_node.cpp:244-300 | the loop leaves the frame as Walk over every slot of the draw order and the capacity as CapacityAfterAll of the requests |
| Spine.SpineNode.GrowPool | cubicat-port/spine_node.cpp:236-243 | the pool becomes Grow of the old pool: new drawables with the node's filter are appended up to the slot count |
| Spine.SpineNode.DrawSlot | cubicat-port/spine_node.cpp:245-299 | one iteration leaves the frame as StepSlot; only a rendered Mesh requests scratch capacity, worldVerticesLength / 2 vertices |
| Spine.MeshVertices | cubicat-port/spine_node.cpp:284-287 | the Mesh branch takes a buffer for worldVerticesLength >> 1 vertices and copies back exactly the world positions; the capacity follows CapacityAfter |
| SpineDraw.NothingToDrawIffNotProcessed | cubicat-port/spine_node.cpp:38-57 | the ordered skip chain is true exactly when the slot is not processed, where processed means it has an attachment, is in the window on an active bone, and is a clip or visible through both alphas |
| SpineDraw.ClippingSkippedOnlyByFirstRules | cubicat-port/spine_node.cpp:38-46 | a clipping attachment is skipped exactly when it is outside the inclusive window or its bone is inactive, whatever the alphas |
| SpineDraw.AlphaRules | cubicat-port/spine_node.cpp:47-56 | past the first three rules, a non-clip slot is skipped exactly when the slot alpha or its Region/Mesh alpha is zero; an unknown kind is skipped only for a zero slot alpha |
| SpineDraw.BlendAfter | cubicat-port/spine_node.cpp:256-260 | Additive and Multiply tags set those blend modes; any other tag keeps the material's previous mode |
| SpineDraw.CacheTexture | cubicat-port/spine_node.cpp:60-92 | with a region whose page has a non-empty path, that path is present afterwards and holds the page's texture (a null one included) if it was new; existing entries are never replaced; the keys grow by exactly that path, and otherwise the map is unchanged |
| SpineDraw.MaterialTexture | cubicat-port/spine_node.cpp:60-92 | without a region or path the material's texture is unchanged; otherwise it is the existing entry for the path, or the page's texture when the path is new |
| SpineDraw.CacheTextureIdempotent | cubicat-port/spine_node.cpp:66-73 | resolving the same page again changes neither the map nor the texture it yields |
| SpineDraw.CacheAllKeys | cubicat-port/spine_node.cpp:60-92 | resolving any list of pages leaves exactly one entry per distinct non-empty path on top of the old keys, and earlier entries keep their value |
| SpineDraw.StepSlot | cubicat-port/spine_node.cpp:244-300 | one iteration of the loop keeps the pool size |
| SpineDraw.Walk | cubicat-port/spine_node.cpp:244-300 | the loop keeps the pool size; its effect is stated by the lemmas below |
| SpineDraw.Grow | cubicat-port/spine_node.cpp:236-243 | the pool is never shrunk: it ends with max(old size, slot count) drawables, the old ones first, then new ones with the node's filter flag |
| SpineDraw.WalkAt | cubicat-port/spine_node.cpp:244-300 | after n iterations, position j < n holds what iteration j made of the untouched drawable, and positions not yet reached are untouched |
| SpineDraw.WalkKeepsTextures | cubicat-port/spine_node.cpp:66-73 | later iterations only add texture entries: each entry present earlier survives with its value |
| SpineDraw.WalkTextureKeys | cubicat-port/spine_node.cpp:244-289 | after n iterations the map's keys are the old keys plus the page paths of the rendered Region/Mesh slots among the first n |
| SpineDraw.WalkClipLog | cubicat-port/spine_node.cpp:249-299 | the clipper calls of n iterations are the old ones followed by each slot's calls in draw order |
| SpineDraw.WalkKeepsBilinear | cubicat-port/spine_node.cpp:244-300 | the loop never touches a drawable's filter flag |
| SpineDraw.UpdatePool | cubicat-port/spine_node.cpp:236-243 | after updateMesh the pool has max(old size, slot count) drawables; the appended ones carry the node's flag, old ones keep theirs, and drawables beyond the draw order are untouched |
| SpineDraw.UpdateKeepsUniformFilter | cubicat-port/spine_node.cpp:236-243 | if every drawable had the node's filter flag before updateMesh, every drawable has it after |
| SpineDraw.UpdateSlot | cubicat-port/spine_node.cpp:244-261 | a position is visible exactly when its slot is not skipped; a skipped slot only hides its drawable; any other slot marks it dirty and applies the blend rule; clip and unknown kinds change nothing else |
| SpineDraw.UpdateGeometry | cubicat-port/spine_node.cpp:262-289 | a rendered Region writes 4 vertices (8 floats), the indices {0,1,2,0,2,3} and its UVs; a rendered Mesh writes worldVerticesLength >> 1 vertices and copies its triangles and UVs |
| SpineDraw.UpdateTextures | cubicat-port/spine_node.cpp:262-281 | the final map is the old entries, unchanged, plus the paths of rendered pages; a rendered drawable whose page has a path shows the final entry for that path |
| SpineDraw.UpdateClipLog | cubicat-port/spine_node.cpp:244-300 | the clipper receives exactly the per-slot calls in draw order: clipEnd for skipped and unknown slots, clipStart for clips, and nothing after the loop |
| SpineDraw.ClipLeftOpenAtEnd | cubicat-port/spine_node.cpp:290-301 | when the last slot opens a clip region, the frame's last clipper call is that clipStart: no closing call follows |
| TextureLoader.Unpack565 | cubicat-port/texture_loader.cpp:136-139 | bits 11-15, 5-10 and 0-4 of the RGB565 word give back r >> 3, g >> 2 and b >> 3 |
| TextureLoader.UnpackRgba | cubicat-port/texture_loader.cpp:149-153 | the packed word is lossless: shifting and masking gives back r, g, b and a |
| TextureLoader.StoredRgbaBytes | cubicat-port/texture_loader.cpp:145-153 | storing the word little-endian puts a, b, g, r at increasing addresses |
| TextureLoader.CheckHeader | cubicat-port/texture_loader.cpp:96-119 | bit depth other than 8, palette and gray stop the program, in that order; RGB gets 3 bytes and 16 bits per pixel without alpha, every other accepted type 4 bytes and 32 bits with alpha |
| TextureLoader.RowPointers | cubicat-port/texture_loader.cpp:126-129 | row y starts at byte y * width * bpp; the first row starts the buffer, each row starts where the previous ends, and the last ends exactly at width * height * bpp |
| TextureLoader.Rgb565PerPixel | cubicat-port/texture_loader.cpp:131-143 | the RGB565 output has one word per pixel, word k depends on pixel k's three bytes alone, and its fields hold the truncated channels |
| TextureLoader.Rgb565Row | cubicat-port/texture_loader.cpp:134-140 | the inner loop extends the converted prefix by row y: every word up to (y + 1) * width packs its own pixel |
| TextureLoader.ToRgb565 | cubicat-port/texture_loader.cpp:131-143 | the nested loops fill a fresh array of width * height words equal to the RGB565 conversion of the decoded bytes |
| TextureLoader.Rgba8888Reversed | cubicat-port/texture_loader.cpp:144-156 | the in-place rewrite reverses the four bytes of every pixel |
| TextureLoader.Rgba8888Word | cubicat-port/texture_loader.cpp:144-156 | word k of the rewritten buffer, loaded little-endian, is the packed word of pixel k's original r, g, b, a |
| TextureLoader.Rgba8888RoundTrip | cubicat-port/texture_loader.cpp:144-156 | loading word k of the rewritten buffer and unpacking it gives back pixel k's original r, g, b, a |
| TextureLoader.StoreRgbaWord | cubicat-port/texture_loader.cpp:148-153 | one pixel's read and store reverses its four bytes and changes nothing else |
| TextureLoader.MirrorPrefixStep | cubicat-port/texture_loader.cpp:146-155 | rewriting the next pixel extends the rewritten prefix by one pixel |
| TextureLoader.MirrorPrefixAll | cubicat-port/texture_loader.cpp:144-156 | with every pixel rewritten, the buffer is the per-pixel map of the original |
| TextureLoader.Rgba8888Row | cubicat-port/texture_loader.cpp:147-154 | the inner loop extends the rewritten prefix by row y |
| TextureLoader.Rgba8888Pixel | cubicat-port/texture_loader.cpp:148-153 | one iteration extends the rewritten prefix by the pixel at byte 4p |
| TextureLoader.ToRgba8888 | cubicat-port/texture_loader.cpp:144-156 | the nested loops leave the buffer equal to the per-pixel map of the original buffer, although each pixel is read from the bytes it then overwrites |
| TextureLoader.RouteOf | cubicat-port/texture_loader.cpp:30-54 | in MEMORY mode the callback decides and the path is not inspected; otherwise decoding runs exactly when the path's last four characters are ".png", and a shorter path makes substr throw |
| TextureLoader.DecodedWhole | cubicat-port/texture_loader.cpp:117-130 | an accepted image's buffer holds width * height whole pixels of 3 or 4 bytes |
| TextureLoader.LoadChangesPageOnlyWhenDecoded | cubicat-port/texture_loader.cpp:30-55 | the page changes only in MEMORY mode with a callback, or when a ".png" file opens with an accepted header and its buffer is allocated; the program stops only for a short path or a rejected header |
| TextureLoader.DecodedPage | cubicat-port/texture_loader.cpp:157-167 | a decoded page records the path and the image size; its texture is 16-bit RGB565 without alpha, one word per pixel, exactly for RGB, and 32-bit RGBA8888 with alpha, four bytes per pixel, otherwise |
| TextureLoader.CubicatTextureLoader.constructor | cubicat-port/texture_loader.cpp:6-7 | the statics start in MEMORY mode without a callback |
| TextureLoader.CubicatTextureLoader.Init | cubicat-port/texture_loader.cpp:25-28 | records the location and the callback |
| TextureLoader.CubicatTextureLoader.Load | cubicat-port/texture_loader.cpp:30-55 | the page becomes what LoadResult describes, or the program stops with the page as it was |
| TextureLoader.CubicatTextureLoader.LoadPng | cubicat-port/texture_loader.cpp:62-168 | the page becomes what LoadPngResult describes (the decoded texture through the row layout and the conversion loops), or the program stops with the page as it was |
| PyStr.Find | tools/js_api_generator.py:211 | `str.find`: -1 when the pattern does not occur, otherwise its first occurrence |
| PyStr.RFindChar | tools/js_api_generator.py:67 | `str.rfind` of one character: -1 or its last occurrence |
| PyStr.RFindCharLast | tools/js_api_generator.py:116 | an occurrence with none after it is what rfind returns |
| PyStr.Strip | tools/js_api_generator.py:188 | `str.strip`: the input with exactly the leading and trailing whitespace removed |
| PyStr.RemovePrefix | tools/js_api_generator.py:229 | `str.removeprefix`: drops the prefix when present, otherwise returns the input |
| PyStr.RemoveSuffix | tools/js_api_generator.py:139 | `str.removesuffix`: drops the suffix when present, otherwise returns the input |
| PyStr.DropLast | tools/js_api_generator.py:79-80 | `s[:-n]`: the input without its last n characters, "" when shorter |
| PyStr.Split | tools/js_api_generator.py:237 | `str.split(sep)` always yields at least one piece |
| PyStr.JoinSplit | tools/js_api_generator.py:237 | joining the pieces of a split with the separator gives back the input |
| PyStr.SplitPieces | tools/js_api_generator.py:237 | no piece of a split contains the separator |
| PyStr.ReplaceAll | tools/js_api_generator.py:27 | `str.replace`: the input unchanged when the pattern is absent; never longer when the replacement is no longer than the pattern |
| PyStr.ReplaceIsJoinSplit | tools/js_api_generator.py:27 | replacing every non-overlapping occurrence equals splitting on the pattern and joining with the replacement |
| PyStr.TrailingIsJoin | tools/js_api_generator.py:77-78 | appending each piece followed by the separator equals the pieces joined by the separator plus one trailing separator |
| PyStr.DropTrailing | tools/js_api_generator.py:77-80 | cutting the last separator off such an accumulation gives the pieces joined with no trailing separator |
| JsApiGenerator.RemoveCppKeywords | tools/js_api_generator.py:26-27 | deletes every "static " and then every "virtual "; input containing neither is returned unchanged, and the output is never longer |
| JsApiGenerator.StringRefIsString | tools/js_api_generator.py:32 | a type mentioning "const std::string&" also mentions "std::string", so the string test depends on the second test alone |
| JsApiGenerator.ParamConvertCpp | tools/js_api_generator.py:30-41 | the name gains "_sp" exactly when the type contains "Ptr", and then the type is the input with "Ptr" replaced by "*", overriding the other rules; otherwise `const void*` becomes `void*` before strings become `char*` |
| JsApiGenerator.ParamConvertJs | tools/js_api_generator.py:44-56 | the first matching rule applies, each rule stated under the negation of the earlier ones: a non-char pointer becomes `void*`; int or size_t becomes `int`; Layer2D, LightType or BlendMode becomes `int`; a smart pointer (Ptr) becomes `void*`; a string (by value or const reference) becomes `char*`; any other type is kept. The result is `int` only for integer or engine-enum types, and JavaScript never sees a typed pointer other than `char*` |
| JsApiGenerator.VoidPtrConvertsToItself | tools/js_api_generator.py:44-56 | `void*` is left as `void*` |
| JsApiGenerator.IntConvertsToItself | tools/js_api_generator.py:44-56 | `int` is left as `int` |
| JsApiGenerator.CharPtrConvertsToItself | tools/js_api_generator.py:44-56 | `char*` is left as `char*` |
| JsApiGenerator.ParamConvertJsIdempotent | tools/js_api_generator.py:44-56 | converting an already converted type changes nothing, for every input type |
| JsApiGenerator.GetVectorParam | tools/js_api_generator.py:93-100 | 2 and 3 give the Vector2f and Vector3f constructor calls followed by ", ", and any other length gives "" |
| JsApiGenerator.VectorCallTwo | tools/js_api_generator.py:95 | the two-component call is exactly "Vector2f(vec_x, vec_y), " |
| JsApiGenerator.VectorCallThree | tools/js_api_generator.py:97 | the three-component call is exactly "Vector3f(vec_x, vec_y, vec_z), " |
| JsApiGenerator.SplitParam | tools/js_api_generator.py:67-69 | the name has no space; a parameter without a space is all name and has an empty type |
| JsApiGenerator.SplitParamAtLastSpace | tools/js_api_generator.py:67-69 | the type is the stripped text up to and including the last space, and the name the stripped text after it |
| JsApiGenerator.JsParam | tools/js_api_generator.py:67-76 | the name loses a leading character only when it contains '&', and keeps any '*'; the JS type is param_convert_js of the split type with '*' appended when the name contains '*' and then '&' when it contains '&', so it is never a typed pointer other than `char*` |
| JsApiGenerator.CppParam | tools/js_api_generator.py:116-125 | the parameter is param_convert_cpp of the split type with '*' appended for a leading '*' or '&' for a leading '&', and of the name without a leading '&'; "_sp" is added exactly when the declared type contains Ptr; a leading '*' is kept in the name |
| JsApiGenerator.JsReturnType | tools/js_api_generator.py:60-63 | a typed pointer other than `char*` and a smart pointer (Ptr) become `void*`, and every other type is kept; the result never mentions Ptr and is never a typed pointer other than `char*` |
| JsApiGenerator.JsParams | tools/js_api_generator.py:66-76 | one converted parameter per transformed parameter, in order |
| JsApiGenerator.JsParamLists | tools/js_api_generator.py:64-80 | the accumulate-then-cut loop gives the types and the names joined by ", " with no trailing separator |
| JsApiGenerator.GenJsFile | tools/js_api_generator.py:59-90 | the emitted stub is JsText: "function()" for no parameters, otherwise the joined names; the ffi line with the converted return type and types; and "}," inside a namespace |
| JsApiGenerator.OriginalNameRoundTrip | tools/js_api_generator.py:110 | the name recovered after the first '_' is the original method name whenever the class name has no '_' |
| JsApiGenerator.OriginalNameUnderscoreClass | tools/js_api_generator.py:110 | with a class name containing '_' the recovery fails: `My_Node_draw` gives back `Node_draw` |
| JsApiGenerator.ObjectPointerName | tools/js_api_generator.py:108-109 | the object pointer parameter of a class without spaces splits into two words, the second being "ptr" |
| JsApiGenerator.CppParams | tools/js_api_generator.py:114-125 | one wrapper parameter per transformed parameter, in order |
| JsApiGenerator.PassArgument | tools/js_api_generator.py:128-141 | one turn of the call-argument loop: a vector component only counts unless it is last; anything else first flushes the pending vector call, then passes its argument, rebuilding a smart pointer from `_sp` |
| JsApiGenerator.WrapperLists | tools/js_api_generator.py:111-143 | the declaration list is the parameters joined by ", "; the call list is the loop's accumulation over all parameters but a method's object pointer, with the last separator cut off |
| JsApiGenerator.GenCppFile | tools/js_api_generator.py:103-156 | the emitted wrapper is CppText: nothing outside a class, the IndexError for a method without an object pointer, and otherwise a function forwarding to the static function or through the pointer, with `return` unless the type mentions void |
| JsApiGenerator.VectorRunLast | tools/js_api_generator.py:130-133 | a vector's components that end the list are passed as one vector call |
| JsApiGenerator.VectorRunThen | tools/js_api_generator.py:130-137 | a vector's components followed by an ordinary parameter are passed as one vector call before it |
| JsApiGenerator.RegroupFrom | tools/js_api_generator.py:128-141 | over regroupable declarations the loop passes each declared parameter's argument followed by ", ", a vector as one constructor call |
| JsApiGenerator.Regroup | tools/js_api_generator.py:128-143 | the call list of regroupable declarations is the declared arguments joined by ", " |
| JsApiGenerator.AdjacentVectorsLost | tools/js_api_generator.py:128-143 | as written, two adjacent Vector2 parameters run the counter to 4, and both arguments vanish from the call |
| JsApiScan.WordLength | tools/js_api_generator.py:190 | the length of the leading `\w+` run: all word characters, followed by a non-word character or the end |
| JsApiScan.ClassNameFrom | tools/js_api_generator.py:190 | a name found is a word following "class " in the line; none found means no "class " from there on is followed by a word character |
| JsApiScan.FirstClassName | tools/js_api_generator.py:190-192 | `re.findall(r'class (\w+)')[0]`: a word preceded by "class ", or none when no "class " is followed by a word character |
| JsApiScan.ClassNameWhole | tools/js_api_generator.py:190-192 | the first "class " followed by a whole word yields exactly that word |
| JsApiScan.RemoveNestedParens | tools/js_api_generator.py:213-216 | when the loop ends, no '(' is left and the text is no longer; text without '(' is returned as it is |
| JsApiScan.NeverCloses | tools/js_api_generator.py:213-216 | once a '(' has no ')' after the first one, every turn leaves a text with the same defect, so the loop never ends |
| JsApiScan.StripNestedParens | tools/js_api_generator.py:211-217 | the while loop computes RemoveNestedParens, or reports the loop that never ends |
| JsApiScan.DefaultMatch | tools/js_api_generator.py:219 | a match at the start contains '=' and ends at a ',' or ')' or the end of the text; text without '=' has no match |
| JsApiScan.StripDefaults | tools/js_api_generator.py:219 | `re.sub` of default values never lengthens the text and leaves text without '=' unchanged |
| JsApiScan.NoDefaultsLeft | tools/js_api_generator.py:219 | after the substitution every remaining '=' is followed by ',' or ')' or the end, so no default value is left |
| JsApiScan.ParamGroup | tools/js_api_generator.py:231-236 | no group exactly when there is no '(' or no ')' after the first '('; otherwise it is the parenthesised text after the first '(', and it contains no ')' |
| JsApiScan.ClearParam | tools/js_api_generator.py:244-249 | the stripped parameter without its default value; it never contains '=' |
| JsApiScan.ExpandParam | tools/js_api_generator.py:243-258 | a blank parameter gives nothing, and any other gives one to three parameters |
| JsApiScan.ExpandMatchesArg | tools/js_api_generator.py:250-258 | the expansion of a parameter, converted, is the declared parameter itself, or the float components of its vector |
| JsApiScan.ExpandOne | tools/js_api_generator.py:244-258 | one turn of the transform loop appends ExpandParam of the parameter |
| JsApiScan.TransformParamList | tools/js_api_generator.py:242-258 | the loop yields the concatenated expansions of the raw parameters in order |
| JsApiScan.TransformIsFlatten | tools/js_api_generator.py:242-258 | the converted transformed list is the declared parameters with each vector replaced by its components |
| JsApiScan.RawParams | tools/js_api_generator.py:237-241 | the split parameter group, with the object pointer first for a method of a class |
| JsApiScan.ObjectPointerPresent | tools/js_api_generator.py:238-241 | the object pointer of a word class name survives the transform as a first parameter of at least two words |
| JsApiScan.WrapperCall | tools/js_api_generator.py:231-260 | for regroupable declarations, the wrapper's call list is the declared arguments, object pointer excluded, joined by ", " with vectors regrouped |
| JsApiScan.WithoutNestedParens | tools/js_api_generator.py:211-217 | the line keeps its text up to the first '(' and has no '(' after it |
| JsApiScan.Normalize | tools/js_api_generator.py:211-219 | fails exactly when the parenthesis loop never ends; otherwise no default value is left |
| JsApiScan.Signature | tools/js_api_generator.py:225-229 | the name is the second word up to '(', without its leading '*' if it has one; the return type gains a '*' whenever that name contains one; the name never contains '(', nor a space when the second word has none |
| JsApiScan.DeclHasObjectPointer | tools/js_api_generator.py:238-241 | outside a class or in a class with a word name, a parsed method always starts with an object pointer of two words |
| JsApiScan.NeverMissingObjectPointer | tools/js_api_generator.py:238-260 | so the wrapper of such a line never raises the IndexError |
| JsApiScan.BoundNameShape | tools/js_api_generator.py:225-240 | an exported function name never contains '(' or a space |
| JsApiScan.ParseLine | tools/js_api_generator.py:211-258 | the statement sequence computes ParseDecl: the diverging loop, the skipped short line, the missing parameter list, or the parsed signature with its transformed parameters |
| JsApiScan.TransformLine | tools/js_api_generator.py:211-260 | the binding of one line, its JS stub and wrapper text, or the reason the script stops |
| JsApiScan.ClassAfter | tools/js_api_generator.py:189-192 | the current class is kept or replaced by a word name |
| JsApiScan.ScanLine | tools/js_api_generator.py:188-261 | one turn of the line loop computes LineStep on the stripped line |
| JsApiScan.ScanContent | tools/js_api_generator.py:189-261 | class detection, then the markers, skip rules and transform, as ContentStep |
| JsApiScan.ScanBlock | tools/js_api_generator.py:193-261 | the marker and skip-rule chain computes BlockStep |
| JsApiScan.ScanDecl | tools/js_api_generator.py:211-261 | a declaration is recorded, skipped or stops the scan, as DeclStep |
| JsApiScan.ScanHeader | tools/js_api_generator.py:184-261 | the loop over a header's lines from the initial state computes Scan: the final state or the first failure |
| JsApiScan.StepBindsOnlyInsideBlock | tools/js_api_generator.py:193-261 | a line adds a binding only inside an open block, outside a multi-line comment, when it is not a marker or skipped line, and then exactly the binding of its transform |
| JsApiScan.StepAppends | tools/js_api_generator.py:188-261 | a line never removes or reorders earlier bindings |
| JsApiScan.BindingsAppended | tools/js_api_generator.py:187-261 | the scan of any lines only appends to the bindings |
| JsApiScan.NoBeginNoBindings | tools/js_api_generator.py:193-210 | without a begin marker nothing is bound, the scan succeeds and no block is open |
| JsApiScan.StepExports | tools/js_api_generator.py:193-195 | a line exports the header exactly when it holds the begin marker or the header was already exported |
| JsApiScan.ExportedIffBegin | tools/js_api_generator.py:187-195 | a header is exported exactly when one of its lines holds the begin marker |
| JsApiScan.StepFails | tools/js_api_generator.py:211-261 | a line stops the scan only when its transform aborts, with the same error, and the class name is updated before the transform |
| JsApiScan.StepKeepsClassName | tools/js_api_generator.py:189-192 | the current class stays empty or a word, and no line hits the missing-object-pointer error |
| JsApiScan.ScanNeverMissingObjectPointer | tools/js_api_generator.py:187-261 | no header scan ever stops on the missing-object-pointer IndexError |

## Left out

- Rendering and Spine runtime calls are not modelled:
  - the animation and skeleton update and `updateWorldTransform` in `update`;
  - `computeWorldVertices`, whose float positions are a per-slot input (`worldVertices`) to the model;
  - skeleton and atlas parsing, whose outcome is the `parsed` parameter of `LoadWithBinaryFile`;
  - the internals of `SkeletonClipping`, of which only `clipStart`/`clipEnd` calls are logged.
- `setSkinByName`, `setAnimation`, `addAnimation`, `clearTrack`, `setScale`, `setPosition`, `getAnimationNames`, `createSpine` and the destructor are left out. They only forward to the Spine runtime or carry floats.
- Floats are never reasoned about. Positions and UVs are copied as opaque values, and alphas are reduced to "is zero" flags.
- Memory management is left out: the allocator mismatch and the allocation `assert` of the scratch buffer, `free` in `unload` of the texture loader, and the libpng allocator hooks.
- Of the Spine version `#if` branches, the 3.8/4.0 one is modelled, where MEMORY mode also records the texture path. The branches differ only in accessors.
- libpng, `setjmp` and the file system are left out. The outcome of opening and reading the file is a `PngSource` parameter, and the bytes `png_read_image` writes are given.
- TextureLoader.BufferFits: the decode buffer is assumed to hold exactly width * height * bytesPerPixel decoded bytes, in a size below 2^32. libpng writes a different layout in two accepted cases. An RGB image with a tRNS chunk is expanded to 4 bytes per pixel while the buffer is sized for 3. A GrayAlpha image, with no transform set, is written as 2 bytes per pixel into rows spaced 4 * width bytes apart. A size of 2^32 or more also wraps. The model does not cover these cases.
- TextureLoader.CubicatTextureLoader.LoadPng: the unchecked allocation of the RGB565 buffer is modelled as always succeeding. The success of the first allocation is the `allocOk` parameter.
- TextureLoader.ToRgba8888: the row pointers are modelled as byte offsets into the image buffer rather than as C pointers, so pointer arithmetic outside the buffer is not modelled. Its requirement that the offset array and the pixel buffer are different objects holds for every caller, since their element types differ. Dafny does not derive that from the types, so the requirement is stated.
- Spine.WrapIndex, Spine.SpineNode.GetAnimationName and Spine.SpineNode.SetSkinByIndex require list sizes that fit a C++ `int` (below 2^31 entries, 2^31 skins including the default one). The source compares and adds these as 32-bit values.
- Logging, `printf` and `print` are left out. That includes the "Vector type not support!" message of `get_vector_param`.
- `walk_excluding`, `find_header_files`, the opening and writing of the output files, and the loop over headers are left out, because they are file-system work. Each header is scanned from the initial state.
- The epilogue that builds the `#include` lines, the `Register_` function and the `export_funcs` set (tools/js_api_generator.py:262-281) is left out. The model keeps the bindings in order and records whether the header is exported.
- The regular expression `\w` is restricted to ASCII letters, digits and '_'. Python also accepts other Unicode letters.
- JsApiScan.RemoveNestedParens: when the nested-parenthesis loop never ends, the model reports it as the `ParenLoopDiverges` error rather than running forever.
- JsApiScan.TransformLine: when the wrapper fails, the model yields no text. In the source, the JavaScript stub has already been written to its file before the wrapper raises.
- JsApiScan.WrapperCall: the regrouping is stated only for regroupable declarations, where no vector follows another directly and no ordinary parameter is named like a vector component. For adjacent vectors the source drops both arguments, as JsApiGenerator.AdjacentVectorsLost shows.
- JsApiScan.WrapperCall also assumes a class name that does not contain "Vector2" or "Vector3". Otherwise the object pointer itself would be expanded into float components.
