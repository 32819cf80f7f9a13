/**
 * SpineNode (cubicat-port/spine_node.cpp, fields from spine_node.h) and the
 * process-wide vertex-positions scratch buffer, as classes whose methods
 * update their fields in place. `UpdateMesh` is proved against
 * `SpineDraw.Update`; the properties of the walk are lemmas in SpineDraw.
 */
module Spine {
  import opened Wrappers
  import opened SpineDraw

  /** A C++ `int` on the target. */
  type Int32 = x: int | -0x8000_0000 <= x < 0x8000_0000

  /** size_t is 32 bits wide on the ESP32 target: an int converted to it is taken modulo 2^32. */
  const SizeTRange: int := 0x1_0000_0000

  // ---------------------------------------------------------------------
  // The scratch buffer (getVertexPositionsCache)
  // ---------------------------------------------------------------------

  /** The recorded capacity after one request: growth only, and then exactly to the request. */
  function CapacityAfter(capacity: nat, vertexCount: nat): (c: nat)
    ensures c >= capacity && c >= vertexCount
    ensures vertexCount <= capacity ==> c == capacity
    ensures vertexCount > capacity ==> c == vertexCount
  {
    if vertexCount > capacity then vertexCount else capacity
  }

  /**
   * The recorded capacity after a sequence of requests: never below the
   * starting capacity nor below any request, and equal to one of them.
   */
  function CapacityAfterAll(capacity: nat, requests: seq<nat>): (c: nat)
    ensures c >= capacity
    ensures forall k :: 0 <= k < |requests| ==> requests[k] <= c
    ensures c == capacity || c in requests
    decreases |requests|
  {
    if requests == [] then capacity
    else CapacityAfter(CapacityAfterAll(capacity, requests[..|requests| - 1]), requests[|requests| - 1])
  }

  /** The capacity after the requests of i + 1 slots, from the capacity after i. */
  lemma CapacityStep(capacity: nat, order: seq<Slot>, i: nat)
    requires i < |order|
    ensures var before := CapacityAfterAll(capacity, MeshRequests(order, i));
            var slot := order[i];
            CapacityAfterAll(capacity, MeshRequests(order, i + 1))
              == if Renders(slot, |order|) && slot.attachment.value.Mesh?
                 then CapacityAfter(before, slot.attachment.value.worldVerticesLength / 2)
                 else before
  {
    var slot := order[i];
    if Renders(slot, |order|) && slot.attachment.value.Mesh? {
      assert MeshRequests(order, i + 1)[..|MeshRequests(order, i + 1)| - 1] == MeshRequests(order, i);
    } else {
      assert MeshRequests(order, i + 1) == MeshRequests(order, i);
    }
  }

  /** g_pVertexPositionsCache and g_iVertexPositionsCacheSize (the size counts vertices, 2 floats each). */
  class VertexPositionsCache {
    var buffer: array<Float>
    var size: nat

    ghost predicate Valid()
      reads this
    {
      buffer.Length == 2 * size
    }

    /** The globals start as a null pointer and a size of 0. */
    constructor ()
      ensures Valid() && size == 0
    {
      buffer := new Float[0];
      size := 0;
    }

    /**
     * getVertexPositionsCache: reallocate, to exactly 2 floats per requested
     * vertex, only when the request exceeds the recorded size; otherwise hand
     * back the same buffer with its contents.
     */
    method Get(vertexCount: nat) returns (buf: array<Float>)
      requires Valid()
      modifies this
      ensures Valid() && buf == buffer
      ensures size == CapacityAfter(old(size), vertexCount)
      ensures vertexCount <= old(size) ==> buffer == old(buffer) && buffer[..] == old(buffer[..])
      ensures vertexCount > old(size) ==> fresh(buffer)
    {
      if vertexCount > size {
        buffer := new Float[2 * vertexCount];
        size := vertexCount;
      }
      buf := buffer;
    }
  }

  // ---------------------------------------------------------------------
  // Index wrapping (getAnimationName, setSkinByIndex)
  // ---------------------------------------------------------------------

  /**
   * `idx % list.size()`: the int is converted to size_t first, so a negative
   * index wraps modulo 2^32 before the remainder, the result is never
   * negative, and the `idx < 0` correction that follows never runs.
   */
  function WrapIndex(idx: Int32, size: nat): (r: nat)
    requires 0 < size < 0x8000_0000
    ensures r < size
    ensures idx >= 0 ==> r == idx % size
    ensures idx < 0 ==> r == (idx + SizeTRange) % size
  {
    (idx % SizeTRange) % size
  }

  /** A negative index does not count from the end: -1 over three entries selects the first one. */
  lemma MinusOneSelectsFirstOfThree()
    ensures WrapIndex(-1, 3) == 0
  {
  }

  /** The skeleton data a loaded skeleton refers to: skin names (default skin first) and animation names. */
  datatype SkeletonData = SkeletonData(skins: seq<string>, animations: seq<string>)

  /** A skeleton instance: its data and the position in data.skins of the skin it wears, if any. */
  datatype Skeleton = Skeleton(data: SkeletonData, skin: Option<nat>)

  /**
   * What setSkinByIndex does with the skin list: the default skin at
   * position 0 is removed from a copy of the list first, so it is never
   * chosen, and nothing is chosen when it is the only skin. An empty list
   * breaks the index assertion of Spine's `Vector::removeAt(0)`, which stops
   * the program.
   */
  datatype SkinChoice = EmptySkinList | OnlyDefaultSkin | Wear(position: nat)

  /** The skin setSkinByIndex selects, as a position in the full skin list. */
  function SkinToSet(skinCount: nat, idx: Int32): (r: SkinChoice)
    requires skinCount <= 0x8000_0000
    ensures r == EmptySkinList <==> skinCount == 0
    ensures r == OnlyDefaultSkin <==> skinCount == 1
    ensures r.Wear? ==> 1 <= r.position < skinCount
    ensures r.Wear? && idx >= 0 ==> r.position == 1 + idx % (skinCount - 1)
  {
    if skinCount == 0 then EmptySkinList
    else if skinCount == 1 then OnlyDefaultSkin
    else Wear(1 + WrapIndex(idx, skinCount - 1))
  }

  /** The skeleton after setSkinByIndex(idx) returns normally (unchanged when it stops). */
  function SkinApplied(s: Skeleton, idx: Int32): Skeleton
    requires |s.data.skins| <= 0x8000_0000
  {
    match SkinToSet(|s.data.skins|, idx)
    case Wear(k) => s.(skin := Some(k))
    case _ => s
  }

  /** The node: the fields of spine_node.h that the modelled operations read or write. */
  class SpineNode {
    /** The node's drawables (one Polygon2D per draw-order position). */
    var drawables: seq<Drawable>
    /** m_textureMap. */
    var textureMap: TextureMap
    /** The calls made on the clipper, in order. */
    var clipLog: seq<ClipEvent>
    /** m_vAnimationNames. */
    var animationNames: seq<string>
    /** m_bUseBilinearFilter. */
    var useBilinear: bool
    /** m_pSkeleton (None when null). */
    var skeleton: Option<Skeleton>
    /** m_pAnimState, m_pClipper, m_pAttachmentLoader and m_pAtlas are non-null. */
    var hasAnimState: bool
    var hasClipper: bool
    var hasAttachmentLoader: bool
    var hasAtlas: bool

    /** Every drawable's material uses the node's filter flag. */
    ghost predicate Valid()
      reads this
    {
      forall j :: 0 <= j < |drawables| ==> drawables[j].bilinear == useBilinear
    }

    /** What updateMesh reads and writes. */
    function State(): Frame
      reads this
    {
      Frame(drawables, textureMap, clipLog)
    }

    /** A fresh node: no drawables, an empty map, null pointers, filtering off. */
    constructor ()
      ensures Valid()
      ensures drawables == [] && textureMap == map[] && clipLog == [] && animationNames == []
      ensures !useBilinear && skeleton.None?
      ensures !hasAnimState && !hasClipper && !hasAttachmentLoader && !hasAtlas
    {
      drawables := [];
      textureMap := map[];
      clipLog := [];
      animationNames := [];
      useBilinear := false;
      skeleton := None;
      hasAnimState := false;
      hasClipper := false;
      hasAttachmentLoader := false;
      hasAtlas := false;
    }

    /**
     * unload: detach the drawables, clear the texture map, release the
     * skeleton, the animation state, the clipper, the attachment loader and
     * the atlas. The animation-name list is left as it is.
     */
    method Unload()
      modifies this`drawables, this`textureMap, this`skeleton, this`hasAnimState, this`hasClipper,
        this`hasAttachmentLoader, this`hasAtlas
      ensures Valid()
      ensures drawables == [] && textureMap == map[] && skeleton.None?
      ensures !hasAnimState && !hasClipper && !hasAttachmentLoader && !hasAtlas
    {
      drawables := [];
      textureMap := map[];
      skeleton := None;
      hasAnimState := false;
      hasClipper := false;
      hasAttachmentLoader := false;
      hasAtlas := false;
    }

    /**
     * setSkinByIndex: with a skeleton, wear the skin SkinToSet picks (never
     * the default one); without a skeleton, or with only the default skin,
     * nothing changes. A skeleton without any skin stops the program in
     * `removeAt(0)`, reported as `stopped`.
     */
    method SetSkinByIndex(idx: Int32) returns (stopped: bool)
      requires skeleton.Some? ==> |skeleton.value.data.skins| <= 0x8000_0000
      modifies this`skeleton
      ensures stopped <==> old(skeleton).Some? && old(skeleton).value.data.skins == []
      ensures stopped ==> skeleton == old(skeleton)
      ensures old(skeleton).None? ==> skeleton.None?
      ensures old(skeleton).Some? ==> skeleton == Some(SkinApplied(old(skeleton).value, idx))
    {
      stopped := false;
      if skeleton.Some? {
        var skinCount := |skeleton.value.data.skins|;
        var choice := SkinToSet(skinCount, idx);
        match choice
        case EmptySkinList =>
          stopped := true;
        case OnlyDefaultSkin =>
        case Wear(k) =>
          skeleton := Some(skeleton.value.(skin := Some(k)));
      }
    }

    /**
     * initialize: create the clipper and the animation state, append every
     * animation name of the skeleton data to the list, and wear skin 0 of the
     * non-default skins; `stopped` when the skeleton data has no skin at all.
     */
    method Initialize() returns (stopped: bool)
      requires skeleton.Some? && |skeleton.value.data.skins| <= 0x8000_0000
      modifies this`hasClipper, this`hasAnimState, this`animationNames, this`skeleton
      ensures stopped <==> old(skeleton).value.data.skins == []
      ensures hasClipper && hasAnimState
      ensures animationNames == old(animationNames) + old(skeleton).value.data.animations
      ensures skeleton == Some(SkinApplied(old(skeleton).value, 0))
    {
      hasClipper := true;
      hasAnimState := true;
      var anims := skeleton.value.data.animations;
      var i := 0;
      while i < |anims|
        invariant 0 <= i <= |anims|
        invariant animationNames == old(animationNames) + anims[..i]
        modifies this`animationNames
      {
        animationNames := animationNames + [anims[i]];
        i := i + 1;
      }
      assert anims[..i] == anims;
      stopped := SetSkinByIndex(0);
    }

    /**
     * loadWithBinaryFile: unload, create the atlas and the attachment loader,
     * then, when the skeleton data could be read (`parsed`), create the
     * skeleton and initialize. A failed read keeps the new atlas and loader;
     * data without any skin stops the program during initialize.
     */
    method LoadWithBinaryFile(parsed: Option<SkeletonData>) returns (stopped: bool)
      requires parsed.Some? ==> |parsed.value.skins| <= 0x8000_0000
      modifies this`drawables, this`textureMap, this`skeleton, this`hasAnimState, this`hasClipper,
        this`hasAttachmentLoader, this`hasAtlas, this`animationNames
      ensures stopped <==> parsed.Some? && parsed.value.skins == []
      ensures Valid()
      ensures drawables == [] && textureMap == map[]
      ensures hasAtlas && hasAttachmentLoader
      ensures parsed.None? ==> skeleton.None? && !hasAnimState && !hasClipper && animationNames == old(animationNames)
      ensures parsed.Some? ==>
        && skeleton == Some(SkinApplied(Skeleton(parsed.value, None), 0))
        && hasAnimState && hasClipper
        && animationNames == old(animationNames) + parsed.value.animations
    {
      Unload();
      hasAtlas := true;
      hasAttachmentLoader := true;
      if parsed.None? {
        return false;
      }
      skeleton := Some(Skeleton(parsed.value, None));
      stopped := Initialize();
    }

    /**
     * getAnimationName: "" for an empty list; otherwise the entry at the
     * wrapped index, so always an element of the list.
     */
    function GetAnimationName(idx: Int32): (name: string)
      requires |animationNames| < 0x8000_0000
      reads this
      ensures |animationNames| == 0 ==> name == ""
      ensures |animationNames| > 0 ==> name in animationNames
      ensures |animationNames| > 0 && idx >= 0 ==> name == animationNames[idx % |animationNames|]
    {
      if |animationNames| == 0 then "" else animationNames[WrapIndex(idx, |animationNames|)]
    }

    /** useBilinearFilter: record the flag and set it on every drawable's material. */
    method UseBilinearFilter(b: bool)
      modifies this`useBilinear, this`drawables
      ensures Valid() && useBilinear == b
      ensures |drawables| == |old(drawables)|
      ensures forall j :: 0 <= j < |drawables| ==> drawables[j] == old(drawables[j]).(bilinear := b)
    {
      useBilinear := b;
      var i := 0;
      while i < |drawables|
        invariant 0 <= i <= |drawables| == |old(drawables)|
        invariant forall j :: 0 <= j < i ==> drawables[j] == old(drawables[j]).(bilinear := b)
        invariant forall j :: i <= j < |drawables| ==> drawables[j] == old(drawables[j])
        modifies this`drawables
      {
        drawables := drawables[i := drawables[i].(bilinear := b)];
        i := i + 1;
      }
    }

    /**
     * ASSIGN_TEXTURE: for a region whose page has a path, look the path up,
     * insert the page's texture when it is absent and not null, then read the
     * entry through operator[] (which inserts a null entry when it is still
     * absent) into the material.
     */
    method AssignTexture(poly: Drawable, page: Option<AtlasPage>) returns (p: Drawable)
      modifies this`textureMap
      ensures textureMap == CacheTexture(old(textureMap), page)
      ensures p == poly.(texture := MaterialTexture(poly.texture, old(textureMap), page))
    {
      p := poly;
      if page.Some? {
        var path := page.value.texturePath;
        if |path| > 0 {
          if path !in textureMap {
            var texture := page.value.texture;
            if texture.Some? {
              textureMap := textureMap[path := texture];
            }
          }
          if path !in textureMap {
            textureMap := textureMap[path := None];
          }
          p := p.(texture := textureMap[path]);
        }
      }
    }

    /**
     * updateMesh over the frame's draw order: grow the pool, then for each
     * slot hide it (and close the clip) when there is nothing to draw, or show
     * it, apply the blend rule and write a Region's quad, a Mesh's vertices
     * (through the scratch buffer), open a clip, or close it for an unknown
     * kind.
     */
    method UpdateMesh(order: seq<Slot>, cache: VertexPositionsCache)
      requires Valid() && cache.Valid()
      requires forall j :: 0 <= j < |order| ==> PoseConsistent(order[j])
      modifies this`drawables, this`textureMap, this`clipLog, cache, cache.buffer
      ensures Valid() && cache.Valid()
      ensures State() == Update(old(State()), order, useBilinear)
      ensures cache.size == CapacityAfterAll(old(cache.size), MeshRequests(order, |order|))
    {
      GrowPool(|order|);
      assert State() == old(State()).(pool := Grow(old(drawables), |order|, useBilinear));
      DrawOrder(order, cache);
      UpdateKeepsUniformFilter(old(State()), order, useBilinear);
      forall j | 0 <= j < |drawables| ensures drawables[j].bilinear == useBilinear {
        assert drawables[j] == Update(old(State()), order, useBilinear).pool[j];
      }
    }

    /** The loop of updateMesh: draw every slot of the draw order in turn, on a pool already grown to fit. */
    method DrawOrder(order: seq<Slot>, cache: VertexPositionsCache)
      requires |order| <= |drawables| && cache.Valid()
      requires forall j :: 0 <= j < |order| ==> PoseConsistent(order[j])
      modifies this`drawables, this`textureMap, this`clipLog, cache, cache.buffer
      ensures State() == Walk(old(State()), order, |order|)
      ensures cache.Valid() && cache.size == CapacityAfterAll(old(cache.size), MeshRequests(order, |order|))
    {
      ghost var start, size0 := State(), cache.size;
      var i := 0;
      while i < |order|
        invariant 0 <= i <= |order| <= |drawables|
        invariant State() == Walk(start, order, i)
        invariant cache.Valid() && cache.size == CapacityAfterAll(size0, MeshRequests(order, i))
        invariant cache.buffer == old(cache.buffer) || fresh(cache.buffer)
      {
        DrawSlot(order, i, cache);
        CapacityStep(size0, order, i);
        i := i + 1;
      }
    }

    /** The start of updateMesh: append new drawables until there is one per slot of the draw order. */
    method GrowPool(slotCount: nat)
      modifies this`drawables
      ensures drawables == Grow(old(drawables), slotCount, useBilinear)
    {
      if slotCount > |drawables| {
        var count := slotCount - |drawables|;
        var bilinear := useBilinear;
        var k := 0;
        while k < count
          invariant 0 <= k <= count
          invariant drawables == old(drawables) + seq(k, _ => NewDrawable(bilinear))
        {
          assert seq(k + 1, _ => NewDrawable(bilinear)) == seq(k, _ => NewDrawable(bilinear)) + [NewDrawable(bilinear)];
          drawables := drawables + [NewDrawable(bilinear)];
          k := k + 1;
        }
      }
    }

    /**
     * One iteration of the updateMesh loop, at draw-order position i of a
     * draw order of |order| slots.
     */
    method DrawSlot(order: seq<Slot>, i: nat, cache: VertexPositionsCache)
      requires i < |order| <= |drawables| && PoseConsistent(order[i]) && cache.Valid()
      modifies this`drawables, this`textureMap, this`clipLog, cache, cache.buffer
      ensures State() == StepSlot(old(State()), order, i)
      ensures cache.Valid()
      ensures Renders(order[i], |order|) && order[i].attachment.value.Mesh? ==>
        cache.size == CapacityAfter(old(cache.size), order[i].attachment.value.worldVerticesLength / 2)
      ensures !(Renders(order[i], |order|) && order[i].attachment.value.Mesh?) ==> cache.size == old(cache.size)
      ensures cache.buffer == old(cache.buffer) || fresh(cache.buffer)
    {
      var slot := order[i];
      var poly := drawables[i];
      if NothingToDraw(slot, 0, |order|) {
        drawables := drawables[i := poly.(visible := false)];
        clipLog := clipLog + [ClipEnd(i)];
        return;
      }
      poly := poly.(dirty := true, visible := true);
      if slot.blend == SlotAdditive {
        poly := poly.(blend := BlendAdditive);
      } else if slot.blend == SlotMultiply {
        poly := poly.(blend := BlendMultiply);
      }
      match slot.attachment.value
      case Region(_, page, uvs) =>
        poly := AssignTexture(poly, page);
        poly := poly.(vertices := slot.worldVertices, indices := QuadIndices, uvs := uvs);
        drawables := drawables[i := poly];
      case Mesh(_, page, worldVerticesLength, triangles, uvs) =>
        poly := AssignTexture(poly, page);
        var vertices := MeshVertices(cache, worldVerticesLength / 2, slot.worldVertices);
        poly := poly.(vertices := vertices, indices := triangles, uvs := uvs);
        drawables := drawables[i := poly];
      case Clipping =>
        drawables := drawables[i := poly];
        clipLog := clipLog + [ClipStart(i)];
      case Other =>
        drawables := drawables[i := poly];
        clipLog := clipLog + [ClipEnd(i)];
    }
  }

  /**
   * The Mesh branch's use of the scratch buffer: take a buffer for
   * vertexCount vertices, let the pose runtime write the world positions into
   * it, and copy the first 2 * vertexCount floats out.
   */
  method MeshVertices(cache: VertexPositionsCache, vertexCount: nat, worldVertices: seq<Float>) returns (vertices: seq<Float>)
    requires cache.Valid() && |worldVertices| == 2 * vertexCount
    modifies cache, cache.buffer
    ensures cache.Valid() && vertices == worldVertices
    ensures cache.size == CapacityAfter(old(cache.size), vertexCount)
    ensures cache.buffer == old(cache.buffer) || fresh(cache.buffer)
  {
    var vertPos := cache.Get(vertexCount);
    // computeWorldVertices writes the slot's positions into the buffer
    forall k | 0 <= k < |worldVertices| {
      vertPos[k] := worldVertices[k];
    }
    vertices := vertPos[..2 * vertexCount];
  }
}
