/**
 * The per-frame "skeleton slots to drawables" conversion of SpineNode
 * (cubicat-port/spine_node.cpp), as pure definitions.
 *
 * The pose runtime hands over an ordered draw list of slots; each slot is
 * classified (skip or not), its drawable's visibility and blend mode are set,
 * Region and Mesh attachments write geometry and resolve their atlas page's
 * texture through a map memoised by page path, and Clipping / unknown
 * attachments only notify the clipper. `Walk` is the effect of the first n
 * slots of that loop on a `Frame`; `Update` is the whole of `updateMesh`.
 */
module SpineDraw {
  import opened Wrappers

  /** A float handed over by the pose runtime or the atlas; the model only copies these. */
  type Float = real

  /** Identity of a texture object attached to an atlas page by the texture loader. */
  type TextureRef = nat

  /** An entry of an index buffer (uint16_t in the renderer). */
  type Index = i: int | 0 <= i < 0x1_0000

  /** Blend modes a slot's data can carry in the Spine runtime. */
  datatype SlotBlend = SlotNormal | SlotAdditive | SlotMultiply | SlotScreen

  /** Blend modes of the renderer's material. */
  datatype MaterialBlend = BlendNormal | BlendAdditive | BlendMultiply

  /** An atlas page: its texture path and the texture the loader attached (None when null). */
  datatype AtlasPage = AtlasPage(texturePath: string, texture: Option<TextureRef>)

  /**
   * The attachment kinds the walk distinguishes. `alphaZero` says the
   * attachment's own colour has alpha 0; `page` is the page of the atlas
   * region behind the attachment (None when the attachment has no region).
   * `Other` stands for every kind not handled (bounding boxes, paths, points).
   */
  datatype Attachment =
    | Region(alphaZero: bool, page: Option<AtlasPage>, uvs: seq<Float>)
    | Mesh(alphaZero: bool, page: Option<AtlasPage>, worldVerticesLength: nat, triangles: seq<Index>, uvs: seq<Float>)
    | Clipping
    | Other

  /**
   * A slot as the pose runtime presents it for one frame: the index of its
   * slot data, whether its bone is active, whether the slot colour's alpha is
   * 0, its blend mode, its attachment, and the world-space positions that the
   * runtime's computeWorldVertices produces for that attachment this frame.
   */
  datatype Slot = Slot(
    index: int,
    boneActive: bool,
    alphaZero: bool,
    blend: SlotBlend,
    attachment: Option<Attachment>,
    worldVertices: seq<Float>)

  /** The state of one pooled Polygon2D: node visibility, material and mesh buffers. */
  datatype Drawable = Drawable(
    visible: bool,
    dirty: bool,
    bilinear: bool,
    blend: MaterialBlend,
    texture: Option<TextureRef>,
    vertices: seq<Float>,
    indices: seq<Index>,
    uvs: seq<Float>)

  /** A call the walk makes on the SkeletonClipping object, with the draw-order position. */
  datatype ClipEvent = ClipStart(position: nat) | ClipEnd(position: nat)

  /** m_textureMap: page path to texture; a null entry is possible (see CacheTexture). */
  type TextureMap = map<string, Option<TextureRef>>

  /** What updateMesh reads and writes on the node: the pool, the texture map and the clipper calls. */
  datatype Frame = Frame(pool: seq<Drawable>, textures: TextureMap, clipLog: seq<ClipEvent>)

  /** The triangle pattern written for every Region quad. */
  const QuadIndices: seq<Index> := [0, 1, 2, 0, 2, 3]

  /** A drawable as created for the pool: an empty mesh whose material takes the node's filter flag. */
  function NewDrawable(bilinear: bool): Drawable {
    Drawable(true, false, bilinear, BlendNormal, None, [], [], [])
  }

  /**
   * The positions the runtime writes agree with the attachment: a Region
   * writes 4 vertices (8 floats), a Mesh exactly worldVerticesLength floats,
   * an even number since positions are x,y pairs.
   */
  predicate PoseConsistent(slot: Slot) {
    match slot.attachment
    case Some(Region(_, _, _)) => |slot.worldVertices| == 8
    case Some(Mesh(_, _, len, _, _)) => |slot.worldVertices| == len && len % 2 == 0
    case _ => true
  }

  // ---------------------------------------------------------------------
  // Classifier: slotIsOutRange and nothingToDraw
  // ---------------------------------------------------------------------

  /** The slot's data index lies outside the inclusive window [startSlotIndex, endSlotIndex]. */
  predicate SlotIsOutRange(slot: Slot, startSlotIndex: int, endSlotIndex: int) {
    startSlotIndex > slot.index || endSlotIndex < slot.index
  }

  /** The attachment's own colour has alpha 0 (only Region and Mesh carry one). */
  predicate AttachmentAlphaZero(a: Attachment) {
    match a
    case Region(alphaZero, _, _) => alphaZero
    case Mesh(alphaZero, _, _, _, _) => alphaZero
    case _ => false
  }

  /**
   * The ordered skip rules of nothingToDraw: no attachment, out of the
   * window, or an inactive bone skip first (a Clipping attachment included);
   * then a Clipping attachment is never skipped; then a zero slot alpha, then
   * a zero Region/Mesh alpha skip.
   */
  predicate NothingToDraw(slot: Slot, startSlotIndex: int, endSlotIndex: int) {
    if slot.attachment.None? || SlotIsOutRange(slot, startSlotIndex, endSlotIndex) || !slot.boneActive then true
    else if slot.attachment.value.Clipping? then false
    else if slot.alphaZero then true
    else AttachmentAlphaZero(slot.attachment.value)
  }

  /**
   * Reference definition: a slot is processed when it has an attachment in
   * the window on an active bone, and it is either a clip region or visible
   * through both alphas.
   */
  predicate Processed(slot: Slot, startSlotIndex: int, endSlotIndex: int) {
    && slot.attachment.Some?
    && startSlotIndex <= slot.index <= endSlotIndex
    && slot.boneActive
    && (slot.attachment.value.Clipping? || (!slot.alphaZero && !AttachmentAlphaZero(slot.attachment.value)))
  }

  /** The ordered rule chain and the reference definition agree in both directions. */
  lemma NothingToDrawIffNotProcessed(slot: Slot, startSlotIndex: int, endSlotIndex: int)
    ensures NothingToDraw(slot, startSlotIndex, endSlotIndex) <==> !Processed(slot, startSlotIndex, endSlotIndex)
  {
  }

  /**
   * The window test precedes the Clipping test: a clip region whose slot
   * index is outside the window is skipped, while one inside the window on
   * an active bone is never skipped, whatever the alphas.
   */
  lemma ClippingSkippedOnlyByFirstRules(slot: Slot, startSlotIndex: int, endSlotIndex: int)
    requires slot.attachment == Some(Clipping)
    ensures NothingToDraw(slot, startSlotIndex, endSlotIndex)
      <==> SlotIsOutRange(slot, startSlotIndex, endSlotIndex) || !slot.boneActive
  {
  }

  /** Past the first three rules, a zero slot alpha skips Region, Mesh and unknown kinds alike. */
  lemma AlphaRules(slot: Slot, startSlotIndex: int, endSlotIndex: int)
    requires slot.attachment.Some? && !slot.attachment.value.Clipping?
    requires !SlotIsOutRange(slot, startSlotIndex, endSlotIndex) && slot.boneActive
    ensures NothingToDraw(slot, startSlotIndex, endSlotIndex)
      <==> slot.alphaZero || AttachmentAlphaZero(slot.attachment.value)
    ensures slot.attachment.value.Other? ==> (NothingToDraw(slot, startSlotIndex, endSlotIndex) <==> slot.alphaZero)
  {
  }

  // ---------------------------------------------------------------------
  // Blend mode and texture resolution (ASSIGN_TEXTURE)
  // ---------------------------------------------------------------------

  /** The material blend after a visible slot: only Additive and Multiply tags change it. */
  function BlendAfter(current: MaterialBlend, tag: SlotBlend): (b: MaterialBlend)
    ensures tag == SlotAdditive ==> b == BlendAdditive
    ensures tag == SlotMultiply ==> b == BlendMultiply
    ensures tag != SlotAdditive && tag != SlotMultiply ==> b == current
  {
    match tag
    case SlotAdditive => BlendAdditive
    case SlotMultiply => BlendMultiply
    case _ => current
  }

  /** The attachment has an atlas region whose page has a non-empty texture path. */
  predicate HasPath(page: Option<AtlasPage>) {
    page.Some? && |page.value.texturePath| > 0
  }

  /**
   * The texture map after ASSIGN_TEXTURE: a path seen for the first time is
   * inserted with the page's texture, and a null one is inserted as well
   * (operator[] default-constructs the entry); a present entry is never
   * replaced; a null region or an empty path leaves the map alone.
   */
  function CacheTexture(m: TextureMap, page: Option<AtlasPage>): (m': TextureMap)
    ensures HasPath(page) ==> page.value.texturePath in m'
    ensures forall k :: k in m ==> k in m' && m'[k] == m[k]
    ensures forall k :: k in m' && k !in m ==> HasPath(page) && k == page.value.texturePath && m'[k] == page.value.texture
    ensures m'.Keys == if HasPath(page) then m.Keys + {page.value.texturePath} else m.Keys
  {
    if HasPath(page) && page.value.texturePath !in m then m[page.value.texturePath := page.value.texture] else m
  }

  /** The material's texture after ASSIGN_TEXTURE: the map's entry for the page path, or unchanged. */
  function MaterialTexture(current: Option<TextureRef>, m: TextureMap, page: Option<AtlasPage>): (t: Option<TextureRef>)
    ensures !HasPath(page) ==> t == current
    ensures HasPath(page) && page.value.texturePath in m ==> t == m[page.value.texturePath]
    ensures HasPath(page) && page.value.texturePath !in m ==> t == page.value.texture
  {
    if HasPath(page) then CacheTexture(m, page)[page.value.texturePath] else current
  }

  /** Resolving the same page twice changes nothing the second time and yields the same texture. */
  lemma CacheTextureIdempotent(m: TextureMap, current: Option<TextureRef>, page: Option<AtlasPage>)
    ensures CacheTexture(CacheTexture(m, page), page) == CacheTexture(m, page)
    ensures MaterialTexture(current, CacheTexture(m, page), page) == MaterialTexture(current, m, page)
  {
  }

  /** The map after resolving a list of pages in order. */
  function CacheAll(m: TextureMap, pages: seq<Option<AtlasPage>>): TextureMap
    decreases |pages|
  {
    if pages == [] then m else CacheAll(CacheTexture(m, pages[0]), pages[1..])
  }

  /** The set of non-empty page paths among the pages. */
  function PagePaths(pages: seq<Option<AtlasPage>>): set<string> {
    set j | 0 <= j < |pages| && HasPath(pages[j]) :: pages[j].value.texturePath
  }

  /**
   * Resolving pages in any order and with any repetition leaves exactly one
   * entry per distinct non-empty path, and keeps every earlier entry.
   */
  lemma {:induction false} CacheAllKeys(m: TextureMap, pages: seq<Option<AtlasPage>>)
    ensures CacheAll(m, pages).Keys == m.Keys + PagePaths(pages)
    ensures forall k :: k in m ==> CacheAll(m, pages)[k] == m[k]
    decreases |pages|
  {
    if pages != [] {
      CacheAllKeys(CacheTexture(m, pages[0]), pages[1..]);
      PagePathsCons(pages);
    }
  }

  /** The paths of a list of pages: those of its first page and those of the rest. */
  lemma PagePathsCons(pages: seq<Option<AtlasPage>>)
    requires pages != []
    ensures PagePaths(pages) == (if HasPath(pages[0]) then {pages[0].value.texturePath} else {}) + PagePaths(pages[1..])
  {
    var rest := pages[1..];
    forall p | p in PagePaths(pages)
      ensures p in (if HasPath(pages[0]) then {pages[0].value.texturePath} else {}) + PagePaths(rest)
    {
      var j :| 0 <= j < |pages| && HasPath(pages[j]) && pages[j].value.texturePath == p;
      if j > 0 { assert rest[j - 1] == pages[j]; }
    }
    forall p | p in PagePaths(rest) ensures p in PagePaths(pages) {
      var j :| 0 <= j < |rest| && HasPath(rest[j]) && rest[j].value.texturePath == p;
      assert pages[j + 1] == rest[j];
    }
  }

  // ---------------------------------------------------------------------
  // One slot of the walk
  // ---------------------------------------------------------------------

  /** The atlas page behind a Region or Mesh attachment. */
  function AttachmentPage(a: Attachment): Option<AtlasPage> {
    match a
    case Region(_, page, _) => page
    case Mesh(_, page, _, _, _) => page
    case _ => None
  }

  /** The slot is not skipped and its attachment is a Region or a Mesh: geometry is written. */
  predicate Renders(slot: Slot, slotCount: int) {
    !NothingToDraw(slot, 0, slotCount) && (slot.attachment.value.Region? || slot.attachment.value.Mesh?)
  }

  /** The drawable after the slot is processed, given the texture map at that point of the walk. */
  function SlotDrawable(d: Drawable, slot: Slot, slotCount: int, m: TextureMap): Drawable {
    if NothingToDraw(slot, 0, slotCount) then d.(visible := false)
    else
      var shown := d.(dirty := true, visible := true, blend := BlendAfter(d.blend, slot.blend));
      match slot.attachment.value
      case Region(_, page, uvs) =>
        shown.(texture := MaterialTexture(d.texture, m, page),
               vertices := slot.worldVertices, indices := QuadIndices, uvs := uvs)
      case Mesh(_, page, _, triangles, uvs) =>
        shown.(texture := MaterialTexture(d.texture, m, page),
               vertices := slot.worldVertices, indices := triangles, uvs := uvs)
      case _ => shown
  }

  /** The texture map after the slot is processed. */
  function SlotTextures(m: TextureMap, slot: Slot, slotCount: int): TextureMap {
    if Renders(slot, slotCount) then CacheTexture(m, AttachmentPage(slot.attachment.value)) else m
  }

  /** The clipper calls the slot at draw-order position i makes. */
  function SlotEvents(slot: Slot, slotCount: int, i: nat): seq<ClipEvent> {
    if NothingToDraw(slot, 0, slotCount) then [ClipEnd(i)]
    else if slot.attachment.value.Clipping? then [ClipStart(i)]
    else if slot.attachment.value.Other? then [ClipEnd(i)]
    else []
  }

  /** One iteration of the updateMesh loop, at draw-order position i, with the window [0, slotCount]. */
  function StepSlot(f: Frame, order: seq<Slot>, i: nat): (g: Frame)
    requires i < |order| <= |f.pool|
    ensures |g.pool| == |f.pool|
  {
    Frame(f.pool[i := SlotDrawable(f.pool[i], order[i], |order|, f.textures)],
          SlotTextures(f.textures, order[i], |order|),
          f.clipLog + SlotEvents(order[i], |order|, i))
  }

  /** The first n iterations of the updateMesh loop. */
  function Walk(f: Frame, order: seq<Slot>, n: nat): (g: Frame)
    requires n <= |order| <= |f.pool|
    ensures |g.pool| == |f.pool|
    decreases n
  {
    if n == 0 then f else StepSlot(Walk(f, order, n - 1), order, n - 1)
  }

  /** The pool grown to n drawables, each new one taking the node's filter flag. */
  function Grow(pool: seq<Drawable>, n: nat, bilinear: bool): (p: seq<Drawable>)
    ensures |p| == if |pool| < n then n else |pool|
    ensures p[..|pool|] == pool
    ensures forall j :: |pool| <= j < |p| ==> p[j] == NewDrawable(bilinear)
  {
    if |pool| < n then pool + seq(n - |pool|, _ => NewDrawable(bilinear)) else pool
  }

  /** updateMesh: grow the pool to the draw-order length, then walk every slot. */
  function Update(f: Frame, order: seq<Slot>, bilinear: bool): Frame {
    Walk(f.(pool := Grow(f.pool, |order|, bilinear)), order, |order|)
  }

  /** The clipper calls of the first n slots, in order. */
  function Events(order: seq<Slot>, n: nat): seq<ClipEvent>
    requires n <= |order|
  {
    if n == 0 then [] else Events(order, n - 1) + SlotEvents(order[n - 1], |order|, n - 1)
  }

  /** The vertex counts the first n slots request from the scratch buffer (rendered Mesh slots). */
  function MeshRequests(order: seq<Slot>, n: nat): seq<nat>
    requires n <= |order|
  {
    if n == 0 then []
    else
      var slot := order[n - 1];
      MeshRequests(order, n - 1)
        + (if Renders(slot, |order|) && slot.attachment.value.Mesh?
           then [slot.attachment.value.worldVerticesLength / 2] else [])
  }

  // ---------------------------------------------------------------------
  // Properties of the walk
  // ---------------------------------------------------------------------

  /**
   * After n iterations, position j holds what the iteration at j made of the
   * untouched drawable, given the texture map at that point; positions not
   * yet reached are untouched.
   */
  lemma {:induction false} WalkAt(f: Frame, order: seq<Slot>, n: nat, j: nat)
    requires n <= |order| <= |f.pool| && j < |f.pool|
    ensures j < n ==> j < |order| && Walk(f, order, n).pool[j] == SlotDrawable(f.pool[j], order[j], |order|, Walk(f, order, j).textures)
    ensures j >= n ==> Walk(f, order, n).pool[j] == f.pool[j]
    decreases n
  {
    if n > 0 {
      WalkAt(f, order, n - 1, j);
      WalkPoolStep(f, order, n);
    }
  }

  lemma WalkPoolStep(f: Frame, order: seq<Slot>, n: nat)
    requires 0 < n <= |order| <= |f.pool|
    ensures Walk(f, order, n).pool
      == Walk(f, order, n - 1).pool[n - 1 := SlotDrawable(Walk(f, order, n - 1).pool[n - 1], order[n - 1], |order|, Walk(f, order, n - 1).textures)]
  {
  }

  /** Later iterations only add texture entries: every entry present after j iterations survives. */
  lemma {:induction false} WalkKeepsTextures(f: Frame, order: seq<Slot>, j: nat, n: nat)
    requires j <= n <= |order| <= |f.pool|
    ensures forall k :: k in Walk(f, order, j).textures ==>
      k in Walk(f, order, n).textures && Walk(f, order, n).textures[k] == Walk(f, order, j).textures[k]
    decreases n
  {
    if n > j {
      WalkKeepsTextures(f, order, j, n - 1);
    }
  }

  /** The page paths of the Region and Mesh slots among the first n that render. */
  function RenderedPaths(order: seq<Slot>, n: nat): set<string>
    requires n <= |order|
  {
    set j | 0 <= j < n && Renders(order[j], |order|) && HasPath(AttachmentPage(order[j].attachment.value))
      :: AttachmentPage(order[j].attachment.value).value.texturePath
  }

  /** After n iterations the map holds exactly the old keys plus the paths of the rendered pages. */
  lemma {:induction false} WalkTextureKeys(f: Frame, order: seq<Slot>, n: nat)
    requires n <= |order| <= |f.pool|
    ensures Walk(f, order, n).textures.Keys == f.textures.Keys + RenderedPaths(order, n)
    decreases n
  {
    if n > 0 {
      WalkTextureKeys(f, order, n - 1);
      RenderedPathsSnoc(order, n);
      SlotTexturesKeys(Walk(f, order, n - 1).textures, order[n - 1], |order|);
      assert Walk(f, order, n).textures == SlotTextures(Walk(f, order, n - 1).textures, order[n - 1], |order|);
    }
  }

  lemma SlotTexturesKeys(m: TextureMap, slot: Slot, slotCount: int)
    ensures SlotTextures(m, slot, slotCount).Keys == m.Keys
      + (if Renders(slot, slotCount) && HasPath(AttachmentPage(slot.attachment.value))
         then {AttachmentPage(slot.attachment.value).value.texturePath} else {})
  {
  }

  lemma RenderedPathsSnoc(order: seq<Slot>, n: nat)
    requires 0 < n <= |order|
    ensures RenderedPaths(order, n) == RenderedPaths(order, n - 1)
      + (if Renders(order[n - 1], |order|) && HasPath(AttachmentPage(order[n - 1].attachment.value))
         then {AttachmentPage(order[n - 1].attachment.value).value.texturePath} else {})
  {
  }

  /** The clipper calls of n iterations are the old calls followed by each slot's calls in order. */
  lemma {:induction false} WalkClipLog(f: Frame, order: seq<Slot>, n: nat)
    requires n <= |order| <= |f.pool|
    ensures Walk(f, order, n).clipLog == f.clipLog + Events(order, n)
    decreases n
  {
    if n > 0 {
      WalkClipLog(f, order, n - 1);
    }
  }

  /** The drawable filter flag is never touched by the walk. */
  lemma {:induction false} WalkKeepsBilinear(f: Frame, order: seq<Slot>, n: nat, j: nat)
    requires n <= |order| <= |f.pool| && j < |f.pool|
    ensures Walk(f, order, n).pool[j].bilinear == f.pool[j].bilinear
  {
    WalkAt(f, order, n, j);
  }

  /**
   * Pool growth: the pool ends with max(old size, slot count) drawables;
   * exactly the missing ones are appended, and they keep the node's filter
   * flag; drawables past the draw order are not touched.
   */
  lemma UpdatePool(f: Frame, order: seq<Slot>, bilinear: bool)
    ensures |Update(f, order, bilinear).pool| == if |f.pool| < |order| then |order| else |f.pool|
    ensures forall j :: |order| <= j < |f.pool| ==> Update(f, order, bilinear).pool[j] == f.pool[j]
    ensures forall j :: |f.pool| <= j < |order| ==> Update(f, order, bilinear).pool[j].bilinear == bilinear
    ensures forall j :: 0 <= j < |f.pool| ==> Update(f, order, bilinear).pool[j].bilinear == f.pool[j].bilinear
  {
    var g := f.(pool := Grow(f.pool, |order|, bilinear));
    forall j | 0 <= j < |g.pool|
      ensures Update(f, order, bilinear).pool[j].bilinear == g.pool[j].bilinear
      ensures j >= |order| ==> Update(f, order, bilinear).pool[j] == g.pool[j]
    {
      WalkAt(g, order, |order|, j);
    }
    forall j | 0 <= j < |f.pool| ensures g.pool[j] == f.pool[j] {
      assert g.pool[..|f.pool|] == f.pool;
    }
  }

  /** If every drawable has the node's filter flag before updateMesh, every drawable has it after. */
  lemma UpdateKeepsUniformFilter(f: Frame, order: seq<Slot>, bilinear: bool)
    requires forall j :: 0 <= j < |f.pool| ==> f.pool[j].bilinear == bilinear
    ensures forall j :: 0 <= j < |Update(f, order, bilinear).pool| ==> Update(f, order, bilinear).pool[j].bilinear == bilinear
  {
    UpdatePool(f, order, bilinear);
  }

  /**
   * Visibility and "nothing else changes" per draw-order position: a skipped
   * slot only hides its drawable; every other slot shows it, with the blend
   * rule applied; Clipping and unknown kinds leave texture and geometry as
   * they were.
   */
  lemma UpdateSlot(f: Frame, order: seq<Slot>, bilinear: bool, j: nat)
    requires j < |order|
    ensures var before := Grow(f.pool, |order|, bilinear)[j];
            var after := Update(f, order, bilinear).pool[j];
            && after.visible == !NothingToDraw(order[j], 0, |order|)
            && (NothingToDraw(order[j], 0, |order|) ==> after == before.(visible := false))
            && (!NothingToDraw(order[j], 0, |order|) ==>
                  after.dirty && after.blend == BlendAfter(before.blend, order[j].blend) && after.bilinear == before.bilinear)
            && (!NothingToDraw(order[j], 0, |order|) && !Renders(order[j], |order|) ==>
                  after == before.(dirty := true, visible := true, blend := BlendAfter(before.blend, order[j].blend)))
  {
    var g := f.(pool := Grow(f.pool, |order|, bilinear));
    WalkAt(g, order, |order|, j);
    WalkAt(g, order, j, j);
  }

  /**
   * Geometry per attachment kind: a rendered Region writes 4 vertices, the
   * indices {0,1,2,0,2,3} and its UVs; a rendered Mesh writes
   * worldVerticesLength >> 1 vertices and copies its triangles and UVs.
   */
  lemma UpdateGeometry(f: Frame, order: seq<Slot>, bilinear: bool, j: nat)
    requires j < |order| && PoseConsistent(order[j]) && Renders(order[j], |order|)
    ensures var after := Update(f, order, bilinear).pool[j];
            match order[j].attachment.value
            case Region(_, _, uvs) =>
              |after.vertices| == 2 * 4 && after.vertices == order[j].worldVertices
              && after.indices == [0, 1, 2, 0, 2, 3] && |after.indices| == 6 && after.uvs == uvs
            case Mesh(_, _, len, triangles, uvs) =>
              |after.vertices| == 2 * (len / 2) && after.vertices == order[j].worldVertices
              && after.indices == triangles && after.uvs == uvs
            case _ => false
  {
    var g := f.(pool := Grow(f.pool, |order|, bilinear));
    WalkAt(g, order, |order|, j);
  }

  /**
   * Texture map after updateMesh: exactly the old entries (unchanged) plus
   * the paths of rendered pages; a rendered drawable whose page has a path
   * shows the map's final entry for that path.
   */
  lemma UpdateTextures(f: Frame, order: seq<Slot>, bilinear: bool)
    ensures Update(f, order, bilinear).textures.Keys == f.textures.Keys + RenderedPaths(order, |order|)
    ensures forall k :: k in f.textures ==> Update(f, order, bilinear).textures[k] == f.textures[k]
    ensures forall j :: 0 <= j < |order| && Renders(order[j], |order|) && HasPath(AttachmentPage(order[j].attachment.value)) ==>
      var path := AttachmentPage(order[j].attachment.value).value.texturePath;
      path in Update(f, order, bilinear).textures
      && Update(f, order, bilinear).pool[j].texture == Update(f, order, bilinear).textures[path]
  {
    var g := f.(pool := Grow(f.pool, |order|, bilinear));
    var n := |order|;
    WalkTextureKeys(g, order, n);
    WalkKeepsTextures(g, order, 0, n);
    forall j | 0 <= j < n && Renders(order[j], n) && HasPath(AttachmentPage(order[j].attachment.value))
      ensures AttachmentPage(order[j].attachment.value).value.texturePath in Walk(g, order, n).textures
      ensures Walk(g, order, n).pool[j].texture
        == Walk(g, order, n).textures[AttachmentPage(order[j].attachment.value).value.texturePath]
    {
      WalkTextureAt(g, order, j);
    }
  }

  /** A rendered drawable whose page has a path shows the final map entry for that path. */
  lemma WalkTextureAt(g: Frame, order: seq<Slot>, j: nat)
    requires j < |order| <= |g.pool|
    requires Renders(order[j], |order|) && HasPath(AttachmentPage(order[j].attachment.value))
    ensures AttachmentPage(order[j].attachment.value).value.texturePath in Walk(g, order, |order|).textures
    ensures Walk(g, order, |order|).pool[j].texture
      == Walk(g, order, |order|).textures[AttachmentPage(order[j].attachment.value).value.texturePath]
  {
    var page := AttachmentPage(order[j].attachment.value);
    WalkAt(g, order, |order|, j);
    SlotDrawableTexture(g.pool[j], order[j], |order|, Walk(g, order, j).textures);
    assert Walk(g, order, j + 1).textures == CacheTexture(Walk(g, order, j).textures, page);
    WalkKeepsTextures(g, order, j + 1, |order|);
  }

  /** A rendered slot's drawable shows the texture resolved for its page. */
  lemma SlotDrawableTexture(d: Drawable, slot: Slot, slotCount: int, m: TextureMap)
    requires Renders(slot, slotCount)
    ensures SlotDrawable(d, slot, slotCount, m).texture == MaterialTexture(d.texture, m, AttachmentPage(slot.attachment.value))
  {
  }

  /** The clipper calls of updateMesh: the old calls followed by each slot's calls, nothing after the loop. */
  lemma UpdateClipLog(f: Frame, order: seq<Slot>, bilinear: bool)
    ensures Update(f, order, bilinear).clipLog == f.clipLog + Events(order, |order|)
  {
    WalkClipLog(f.(pool := Grow(f.pool, |order|, bilinear)), order, |order|);
  }

  /**
   * No clip close after the loop: when the last slot opens a clip region,
   * the clipper's last call of the frame is that clipStart.
   */
  lemma ClipLeftOpenAtEnd(f: Frame, order: seq<Slot>, bilinear: bool)
    requires |order| > 0
    requires !NothingToDraw(order[|order| - 1], 0, |order|) && order[|order| - 1].attachment.value.Clipping?
    ensures var log := Update(f, order, bilinear).clipLog;
            |log| > 0 && log[|log| - 1] == ClipStart(|order| - 1)
  {
    UpdateClipLog(f, order, bilinear);
  }
}
