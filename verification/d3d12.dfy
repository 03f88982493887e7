/**
 * Pure bookkeeping of the D3D12 backend: the DXGI format size table, the
 * per-image state bits (upload-once, atlas residency, bindless binding), the
 * per-frame upload and deferred-destroy lists, and the descriptor bump
 * allocator. GPU objects, command lists and pixel copies are not modelled.
 */
module D3D12Backend {
  import opened Wrappers
  import opened Images
  import opened GrowableArray
  import opened CanvasLimits
  import TextureAtlas
  import BindlessTable

  // ------------------------------------------------------------ formats

  /**
   * The DXGI formats the size table lists, without the DXGI_FORMAT_ prefix
   * (DXGI_FORMAT_420_OPAQUE is YUV420_OPAQUE here), and any other format.
   */
  datatype Format =
    R32G32B32A32_TYPELESS | R32G32B32A32_FLOAT | R32G32B32A32_UINT | R32G32B32A32_SINT
    | R32G32B32_TYPELESS | R32G32B32_FLOAT | R32G32B32_UINT | R32G32B32_SINT
    | R16G16B16A16_TYPELESS | R16G16B16A16_FLOAT | R16G16B16A16_UNORM | R16G16B16A16_UINT
    | R16G16B16A16_SNORM | R16G16B16A16_SINT | R32G32_TYPELESS | R32G32_FLOAT | R32G32_UINT
    | R32G32_SINT | R32G8X24_TYPELESS | D32_FLOAT_S8X24_UINT | R32_FLOAT_X8X24_TYPELESS
    | X32_TYPELESS_G8X24_UINT | Y416 | Y210 | Y216 | R10G10B10A2_TYPELESS | R10G10B10A2_UNORM
    | R10G10B10A2_UINT | R11G11B10_FLOAT | R8G8B8A8_TYPELESS | R8G8B8A8_UNORM
    | R8G8B8A8_UNORM_SRGB | R8G8B8A8_UINT | R8G8B8A8_SNORM | R8G8B8A8_SINT | R16G16_TYPELESS
    | R16G16_FLOAT | R16G16_UNORM | R16G16_UINT | R16G16_SNORM | R16G16_SINT | R32_TYPELESS
    | D32_FLOAT | R32_FLOAT | R32_UINT | R32_SINT | R24G8_TYPELESS | D24_UNORM_S8_UINT
    | R24_UNORM_X8_TYPELESS | X24_TYPELESS_G8_UINT | R9G9B9E5_SHAREDEXP | R8G8_B8G8_UNORM
    | G8R8_G8B8_UNORM | B8G8R8A8_UNORM | B8G8R8X8_UNORM | R10G10B10_XR_BIAS_A2_UNORM
    | B8G8R8A8_TYPELESS | B8G8R8A8_UNORM_SRGB | B8G8R8X8_TYPELESS | B8G8R8X8_UNORM_SRGB | AYUV
    | Y410 | YUY2 | P010 | P016 | R8G8_TYPELESS | R8G8_UNORM | R8G8_UINT | R8G8_SNORM
    | R8G8_SINT | R16_TYPELESS | R16_FLOAT | D16_UNORM | R16_UNORM | R16_UINT | R16_SNORM
    | R16_SINT | B5G6R5_UNORM | B5G5R5A1_UNORM | A8P8 | B4G4R4A4_UNORM | NV12 | YUV420_OPAQUE
    | NV11 | R8_TYPELESS | R8_UNORM | R8_UINT | R8_SNORM | R8_SINT | A8_UNORM | BC2_TYPELESS
    | BC2_UNORM | BC2_UNORM_SRGB | BC3_TYPELESS | BC3_UNORM | BC3_UNORM_SRGB | BC5_TYPELESS
    | BC5_UNORM | BC5_SNORM | BC6H_TYPELESS | BC6H_UF16 | BC6H_SF16 | BC7_TYPELESS | BC7_UNORM
    | BC7_UNORM_SRGB | AI44 | IA44 | P8 | R1_UNORM | BC1_TYPELESS | BC1_UNORM | BC1_UNORM_SRGB
    | BC4_TYPELESS | BC4_UNORM | BC4_SNORM
    | Unlisted(code: nat)

  /** `getDXGIFormatBits`: bits per pixel (per block element for compressed formats); 0 for other formats. */
  function FormatBits(f: Format): nat
  {
    match f
    case R32G32B32A32_TYPELESS | R32G32B32A32_FLOAT | R32G32B32A32_UINT | R32G32B32A32_SINT
      => 128
    case R32G32B32_TYPELESS | R32G32B32_FLOAT | R32G32B32_UINT | R32G32B32_SINT
      => 96
    case R16G16B16A16_TYPELESS | R16G16B16A16_FLOAT | R16G16B16A16_UNORM | R16G16B16A16_UINT
      | R16G16B16A16_SNORM | R16G16B16A16_SINT | R32G32_TYPELESS | R32G32_FLOAT | R32G32_UINT
      | R32G32_SINT | R32G8X24_TYPELESS | D32_FLOAT_S8X24_UINT | R32_FLOAT_X8X24_TYPELESS
      | X32_TYPELESS_G8X24_UINT | Y416 | Y210 | Y216
      => 64
    case R10G10B10A2_TYPELESS | R10G10B10A2_UNORM | R10G10B10A2_UINT | R11G11B10_FLOAT
      | R8G8B8A8_TYPELESS | R8G8B8A8_UNORM | R8G8B8A8_UNORM_SRGB | R8G8B8A8_UINT
      | R8G8B8A8_SNORM | R8G8B8A8_SINT | R16G16_TYPELESS | R16G16_FLOAT | R16G16_UNORM
      | R16G16_UINT | R16G16_SNORM | R16G16_SINT | R32_TYPELESS | D32_FLOAT | R32_FLOAT
      | R32_UINT | R32_SINT | R24G8_TYPELESS | D24_UNORM_S8_UINT | R24_UNORM_X8_TYPELESS
      | X24_TYPELESS_G8_UINT | R9G9B9E5_SHAREDEXP | R8G8_B8G8_UNORM | G8R8_G8B8_UNORM
      | B8G8R8A8_UNORM | B8G8R8X8_UNORM | R10G10B10_XR_BIAS_A2_UNORM | B8G8R8A8_TYPELESS
      | B8G8R8A8_UNORM_SRGB | B8G8R8X8_TYPELESS | B8G8R8X8_UNORM_SRGB | AYUV | Y410 | YUY2
      => 32
    case P010 | P016
      => 24
    case R8G8_TYPELESS | R8G8_UNORM | R8G8_UINT | R8G8_SNORM | R8G8_SINT | R16_TYPELESS
      | R16_FLOAT | D16_UNORM | R16_UNORM | R16_UINT | R16_SNORM | R16_SINT | B5G6R5_UNORM
      | B5G5R5A1_UNORM | A8P8 | B4G4R4A4_UNORM
      => 16
    case NV12 | YUV420_OPAQUE | NV11
      => 12
    case R8_TYPELESS | R8_UNORM | R8_UINT | R8_SNORM | R8_SINT | A8_UNORM | BC2_TYPELESS
      | BC2_UNORM | BC2_UNORM_SRGB | BC3_TYPELESS | BC3_UNORM | BC3_UNORM_SRGB | BC5_TYPELESS
      | BC5_UNORM | BC5_SNORM | BC6H_TYPELESS | BC6H_UF16 | BC6H_SF16 | BC7_TYPELESS
      | BC7_UNORM | BC7_UNORM_SRGB | AI44 | IA44 | P8
      => 8
    case R1_UNORM
      => 1
    case BC1_TYPELESS | BC1_UNORM | BC1_UNORM_SRGB | BC4_TYPELESS | BC4_UNORM | BC4_SNORM
      => 4
    case Unlisted(_) => 0
  }

  /** `getDXGIFormatBytes`: bits / 8 rounded down, so formats below a byte per pixel give 0. */
  function FormatBytes(f: Format): (r: nat)
    ensures 8 * r <= FormatBits(f) < 8 * r + 8
  {
    FormatBits(f) / 8
  }

  /** The RGBA8 images the canvas creates take 32 bits, 4 bytes, per pixel; unlisted formats give 0. */
  lemma FormatSizes(code: nat)
    ensures FormatBits(R8G8B8A8_UNORM) == 32 && FormatBytes(R8G8B8A8_UNORM) == 4
    ensures FormatBits(Unlisted(code)) == 0 && FormatBytes(Unlisted(code)) == 0
  {
  }

  /** Formats below a byte per pixel round down: R1 and BC1 give 0 bytes, NV12 (12 bits) gives 1. */
  lemma SubByteFormats()
    ensures FormatBytes(R1_UNORM) == 0 && FormatBytes(BC1_UNORM) == 0 && FormatBytes(NV12) == 1
  {
    assert FormatBits(R1_UNORM) == 1;
    assert FormatBits(BC1_UNORM) == 4;
    assert FormatBits(NV12) == 12;
  }

  /** Every entry of the table is one of its eleven sizes. */
  lemma FormatBitsValues(f: Format)
    ensures FormatBits(f) in {0, 1, 4, 8, 12, 16, 24, 32, 64, 96, 128}
  {
  }

  // -------------------------------------------------------- image state

  const StateUploaded: bv32 := 1
  const StateSaved: bv32 := 2
  const StateInAtlas: bv32 := 4
  const StateAtlasResident: bv32 := 8
  const StateBound: bv32 := 16

  predicate Has(state: bv32, bit: bv32) { state & bit != 0 }

  /** The bookkeeping part of an NkImage: its format, state bits, CPU pixel copy, atlas rect and texture id. */
  datatype ImageRec = ImageRec(format: Format, state: bv32, hasCpuData: bool, rect: TextureAtlas.Rect, textureId: nat)

  /** The state changes applied to every image of a list. */
  datatype StateChange = MarkUploaded | ClearBound | ClearAtlas

  function Apply(op: StateChange, r: ImageRec): ImageRec
  {
    match op
    case MarkUploaded => r.(state := r.state | StateUploaded, hasCpuData := false)
    case ClearBound => r.(state := r.state & !StateBound)
    case ClearAtlas => r.(state := r.state & !StateInAtlas)
  }

  /** Applies a state change to every listed image (a list may name an image twice). */
  function ApplyAll(images: map<ImageId, ImageRec>, ids: seq<ImageId>, op: StateChange): (r: map<ImageId, ImageRec>)
    requires forall i :: 0 <= i < |ids| ==> ids[i] in images
    ensures r.Keys == images.Keys
    ensures forall id :: id in images && id in ids ==> r[id] == Apply(op, images[id])
    ensures forall id :: id in images && id !in ids ==> r[id] == images[id]
    decreases |ids|
  {
    if ids == [] then images
    else
      var id := ids[0];
      ApplyIdempotent(op, images[id]);
      ApplyAll(images[id := Apply(op, images[id])], ids[1..], op)
  }

  lemma ApplyIdempotent(op: StateChange, r: ImageRec)
    ensures Apply(op, Apply(op, r)) == Apply(op, r)
  {
  }

  /**
   * The backend's lists: `images` holds every live image, `uploads` and
   * `toDestroy` are the per-frame-slot NkImageArrays, `table` is the bindless
   * `images` array with `imageNum` entries.
   */
  datatype Backend = Backend(
    images: map<ImageId, ImageRec>,
    uploads: seq<GrowArray<ImageId>>,
    toDestroy: seq<GrowArray<ImageId>>,
    table: seq<ImageId>)
  {
    predicate Valid() {
      |uploads| == MaxFrames && |toDestroy| == MaxFrames
      && (forall s :: 0 <= s < MaxFrames ==> uploads[s].Valid())
      && (forall s :: 0 <= s < MaxFrames ==> toDestroy[s].Valid())
      && |table| <= BindlessTable.MaxBoundImages
    }
  }

  function Init(): (b: Backend)
    ensures b.Valid() && b.images == map[] && b.table == []
    ensures forall s :: 0 <= s < MaxFrames ==> b.uploads[s].items == [] && b.toDestroy[s].items == []
  {
    Backend(map[], [GrowableArray.Init(), GrowableArray.Init()], [GrowableArray.Init(), GrowableArray.Init()], [])
  }

  /**
   * Every queued image that is still alive waits for its upload: SAVED is set,
   * UPLOADED is not and its CPU copy is present; and no image is queued twice,
   * in one slot's list or across both.
   */
  ghost predicate UploadsConsistent(b: Backend)
    requires b.Valid()
  {
    (forall s, i :: 0 <= s < MaxFrames && 0 <= i < |b.uploads[s].items| && b.uploads[s].items[i] in b.images ==>
       Has(b.images[b.uploads[s].items[i]].state, StateSaved)
       && !Has(b.images[b.uploads[s].items[i]].state, StateUploaded)
       && b.images[b.uploads[s].items[i]].hasCpuData)
    && (forall s, i, t, j :: 0 <= s < MaxFrames && 0 <= i < |b.uploads[s].items|
         && 0 <= t < MaxFrames && 0 <= j < |b.uploads[t].items| && b.uploads[s].items[i] == b.uploads[t].items[j]
         ==> s == t && i == j)
  }

  predicate NotQueued(b: Backend, id: ImageId)
    requires b.Valid()
  {
    forall s :: 0 <= s < MaxFrames ==> id !in b.uploads[s].items
  }

  /** `processImage`: an image in state 0 joins the current slot's upload list and becomes SAVED; otherwise nothing happens. */
  function ProcessImage(b: Backend, slot: nat, id: ImageId): (r: Backend)
    requires b.Valid() && slot < MaxFrames && id in b.images
    ensures r.Valid() && r.images.Keys == b.images.Keys && r.table == b.table && r.toDestroy == b.toDestroy
    ensures b.images[id].state == 0 ==>
      r.uploads == b.uploads[slot := GrowableArray.Add(b.uploads[slot], id)]
      && r.images == b.images[id := b.images[id].(state := StateSaved)]
    ensures b.images[id].state != 0 ==> r == b
  {
    if b.images[id].state == 0 then
      var rec := b.images[id];
      b.(uploads := b.uploads[slot := GrowableArray.Add(b.uploads[slot], id)],
         images := b.images[id := rec.(state := rec.state | StateSaved)])
    else b
  }

  /** An image is queued at most once: after processImage, processing it again in any slot changes nothing. */
  lemma ProcessImageOnce(b: Backend, slot: nat, slot': nat, id: ImageId)
    requires b.Valid() && slot < MaxFrames && slot' < MaxFrames && id in b.images
    ensures ProcessImage(ProcessImage(b, slot, id), slot', id) == ProcessImage(b, slot, id)
  {
  }

  lemma ProcessImageKeepsUploads(b: Backend, slot: nat, id: ImageId)
    requires b.Valid() && slot < MaxFrames && id in b.images && UploadsConsistent(b)
    requires b.images[id].state == 0 || NotQueued(b, id)
    requires b.images[id].hasCpuData
    ensures UploadsConsistent(ProcessImage(b, slot, id))
  {
    var r := ProcessImage(b, slot, id);
    if b.images[id].state == 0 {
      assert NotQueued(b, id);
      forall s, i | 0 <= s < MaxFrames && 0 <= i < |r.uploads[s].items| && r.uploads[s].items[i] in r.images
        ensures Has(r.images[r.uploads[s].items[i]].state, StateSaved)
        ensures !Has(r.images[r.uploads[s].items[i]].state, StateUploaded)
        ensures r.images[r.uploads[s].items[i]].hasCpuData
      {
        if s == slot && i == |b.uploads[slot].items| {
        } else {
          assert r.uploads[s].items[i] == b.uploads[s].items[i];
          assert b.uploads[s].items[i] != id;
        }
      }
    }
  }

  /**
   * `createImage`: a new image starts in state 0 with its CPU pixel copy and
   * is passed to processImage, so it joins the current slot's upload list.
   * A fresh image cannot already be listed. The requested format is
   * ignored: the texture is always R8G8B8A8_UNORM, so its upload buffer is
   * sized with four bytes per pixel.
   */
  function CreateImage(b: Backend, slot: nat, id: ImageId, format: Format): (r: Backend)
    requires b.Valid() && slot < MaxFrames && id !in b.images && NotQueued(b, id)
    ensures r.Valid() && r.images.Keys == b.images.Keys + {id}
    ensures r.images[id].state == StateSaved && r.images[id].hasCpuData
    ensures r.images[id].format == R8G8B8A8_UNORM && FormatBytes(r.images[id].format) == 4
    ensures r.uploads == b.uploads[slot := GrowableArray.Add(b.uploads[slot], id)]
    ensures forall other :: other in b.images ==> r.images[other] == b.images[other]
    ensures r.toDestroy == b.toDestroy && r.table == b.table
  {
    var b1 := b.(images := b.images[id := ImageRec(R8G8B8A8_UNORM, 0, true, TextureAtlas.Rect(0, 0, 0, 0), 0)]);
    ProcessImage(b1, slot, id)
  }

  lemma CreateImageKeepsUploads(b: Backend, slot: nat, id: ImageId, format: Format)
    requires b.Valid() && slot < MaxFrames && id !in b.images && NotQueued(b, id) && UploadsConsistent(b)
    ensures UploadsConsistent(CreateImage(b, slot, id, format))
  {
    var b1 := b.(images := b.images[id := ImageRec(R8G8B8A8_UNORM, 0, true, TextureAtlas.Rect(0, 0, 0, 0), 0)]);
    assert UploadsConsistent(b1);
    ProcessImageKeepsUploads(b1, slot, id);
  }

  /**
   * The upload loop of `drawFrame`: every image in the slot's upload list gets
   * UPLOADED and loses its CPU copy, then the list is reset. Each listed image
   * must be alive and still hold its CPU copy (the loop asserts it).
   */
  function UploadFrame(b: Backend, slot: nat): (r: Backend)
    requires b.Valid() && slot < MaxFrames
    requires forall i :: 0 <= i < |b.uploads[slot].items| ==> b.uploads[slot].items[i] in b.images
    requires forall i :: 0 <= i < |b.uploads[slot].items| ==> b.images[b.uploads[slot].items[i]].hasCpuData
    ensures r.Valid() && r.images.Keys == b.images.Keys
    ensures r.uploads[slot].items == [] && r.uploads[slot].cap == b.uploads[slot].cap
    ensures forall s :: 0 <= s < MaxFrames && s != slot ==> r.uploads[s] == b.uploads[s]
    ensures forall id :: id in b.uploads[slot].items ==>
      Has(r.images[id].state, StateUploaded) && !r.images[id].hasCpuData
      && Has(r.images[id].state, StateSaved) == Has(b.images[id].state, StateSaved)
    ensures forall id :: id in b.images && id !in b.uploads[slot].items ==> r.images[id] == b.images[id]
    ensures r.toDestroy == b.toDestroy && r.table == b.table
  {
    var items := b.uploads[slot].items;
    b.(images := ApplyAll(b.images, items, MarkUploaded),
       uploads := b.uploads[slot := GrowableArray.Reset(b.uploads[slot])])
  }

  /** Uploading one slot keeps the other slot's queued images waiting, so the invariant survives. */
  lemma UploadFrameKeepsUploads(b: Backend, slot: nat)
    requires b.Valid() && slot < MaxFrames && UploadsConsistent(b)
    requires forall i :: 0 <= i < |b.uploads[slot].items| ==> b.uploads[slot].items[i] in b.images
    ensures UploadsConsistent(UploadFrame(b, slot))
  {
    var r := UploadFrame(b, slot);
    forall s, i | 0 <= s < MaxFrames && 0 <= i < |r.uploads[s].items| && r.uploads[s].items[i] in r.images
      ensures Has(r.images[r.uploads[s].items[i]].state, StateSaved)
      ensures !Has(r.images[r.uploads[s].items[i]].state, StateUploaded)
      ensures r.images[r.uploads[s].items[i]].hasCpuData
    {
      var id := r.uploads[s].items[i];
      assert s != slot && id == b.uploads[s].items[i];
      forall j | 0 <= j < |b.uploads[slot].items|
        ensures b.uploads[slot].items[j] != b.uploads[s].items[i]
      {
      }
    }
  }

  /** Once uploaded, an image is never queued again: SAVED stays set, so processImage ignores it. */
  lemma UploadedNeverRequeued(b: Backend, slot: nat, slot': nat, id: ImageId)
    requires b.Valid() && slot < MaxFrames && slot' < MaxFrames && id in b.images && b.images[id].hasCpuData
    requires b.images[id].state == 0 && UploadsConsistent(b)
    requires forall i :: 0 <= i < |b.uploads[slot].items| ==> b.uploads[slot].items[i] in b.images
    ensures var b1 := ProcessImage(b, slot, id);
      var b2 := UploadFrame(b1, slot);
      Has(b2.images[id].state, StateUploaded) && ProcessImage(b2, slot', id) == b2
  {
    var b1 := ProcessImage(b, slot, id);
    ProcessImageKeepsUploads(b, slot, id);
    assert b1.uploads[slot].items == b.uploads[slot].items + [id];
    assert id in b1.uploads[slot].items;
  }

  // ------------------------------------------------------ deferred destroy

  function Members(s: seq<ImageId>): set<ImageId> { set x | x in s }

  /** `canvas::destroyImage`: a null image is refused; otherwise it joins the current slot's destroy list. */
  function DestroyImage(b: Backend, slot: nat, image: Option<ImageId>): (r: (Backend, bool))
    requires b.Valid() && slot < MaxFrames
    ensures r.0.Valid() && r.0.images == b.images
    ensures image.None? ==> r == (b, false)
    ensures image.Some? ==> r.1 && r.0.toDestroy == b.toDestroy[slot := GrowableArray.Add(b.toDestroy[slot], image.value)]
    ensures r.0.uploads == b.uploads && r.0.table == b.table
  {
    match image
    case None => (b, false)
    case Some(id) => (b.(toDestroy := b.toDestroy[slot := GrowableArray.Add(b.toDestroy[slot], id)]), true)
  }

  /** `present` (after the frame has been swapped): releases every image in the current slot's destroy list and resets it. */
  function Present(b: Backend, slot: nat): (r: Backend)
    requires b.Valid() && slot < MaxFrames
    ensures r.Valid()
    ensures forall id :: id in r.images <==> id in b.images && id !in b.toDestroy[slot].items
    ensures forall id :: id in r.images ==> r.images[id] == b.images[id]
    ensures r.toDestroy[slot].items == [] && forall s :: 0 <= s < MaxFrames && s != slot ==> r.toDestroy[s] == b.toDestroy[s]
    ensures r.uploads == b.uploads && r.table == b.table
  {
    b.(images := b.images - Members(b.toDestroy[slot].items),
       toDestroy := b.toDestroy[slot := GrowableArray.Reset(b.toDestroy[slot])])
  }

  /** `canvas::destroy`: the destroy lists of both slots are drained. */
  function DestroyAll(b: Backend): (r: Backend)
    requires b.Valid()
    ensures r.Valid()
    ensures forall id :: id in r.images <==> id in b.images && (forall s :: 0 <= s < MaxFrames ==> id !in b.toDestroy[s].items)
    ensures forall s :: 0 <= s < MaxFrames ==> r.toDestroy[s].items == []
  {
    Present(Present(b, 0), 1)
  }

  /**
   * Destruction is deferred: the image stays alive until `present` runs with
   * the same slot current; a present for the other slot does not release it.
   */
  lemma DestroyIsDeferred(b: Backend, slot: nat, other: nat, id: ImageId)
    requires b.Valid() && slot < MaxFrames && other < MaxFrames && other != slot
    requires id in b.images && id !in b.toDestroy[other].items
    ensures var d := DestroyImage(b, slot, Some(id)).0;
      id in d.images && id in Present(d, other).images && id !in Present(d, slot).images
  {
    var d := DestroyImage(b, slot, Some(id)).0;
    assert d.toDestroy[slot].items[|b.toDestroy[slot].items|] == id;
  }

  /** Present keeps both invariants: it only removes images. */
  lemma PresentKeepsInvariants(b: Backend, slot: nat)
    requires b.Valid() && slot < MaxFrames
    ensures UploadsConsistent(b) ==> UploadsConsistent(Present(b, slot))
    ensures TableConsistent(b) ==> TableConsistent(Present(b, slot))
  {
  }

  // ------------------------------------------------------------ atlas bits

  /** `setTextureAtlasState`: sets the atlas bit and stores the rect. */
  function SetTextureAtlasState(b: Backend, id: ImageId, rect: TextureAtlas.Rect): (r: Backend)
    requires b.Valid() && id in b.images
    ensures r.Valid() && r.images.Keys == b.images.Keys
    ensures IsImageInTextureAtlas(r, id) && TextureRect(r, id) == rect
    ensures r.images[id].state & !StateInAtlas == b.images[id].state & !StateInAtlas
    ensures forall other :: other in b.images && other != id ==> r.images[other] == b.images[other]
    ensures r.uploads == b.uploads && r.toDestroy == b.toDestroy && r.table == b.table
  {
    var rec := b.images[id];
    b.(images := b.images[id := rec.(state := rec.state | StateInAtlas, rect := rect)])
  }

  /** `isImageInTextureAtlas`: the atlas bit is set. */
  predicate IsImageInTextureAtlas(b: Backend, id: ImageId)
    requires id in b.images
  {
    b.images[id].state & StateInAtlas > 0
  }

  /** `textureRect`: the stored atlas rect. */
  function TextureRect(b: Backend, id: ImageId): TextureAtlas.Rect
    requires id in b.images
  {
    b.images[id].rect
  }

  /** The atlas part of `updateTextureAtlas`: clears the atlas bit of every image packed this frame. */
  function UpdateTextureAtlas(b: Backend, packed: seq<ImageId>): (r: Backend)
    requires b.Valid() && forall i :: 0 <= i < |packed| ==> packed[i] in b.images
    ensures r.Valid() && r.images.Keys == b.images.Keys
    ensures forall id :: id in packed ==> !IsImageInTextureAtlas(r, id)
    ensures forall id :: id in packed ==> r.images[id].state | StateInAtlas == b.images[id].state | StateInAtlas
    ensures forall id :: id in b.images && id !in packed ==> r.images[id] == b.images[id]
    ensures r.uploads == b.uploads && r.toDestroy == b.toDestroy && r.table == b.table
  {
    b.(images := ApplyAll(b.images, packed, ClearAtlas))
  }

  /** The residency view the canvas keeps: each image with the atlas bit set, mapped to its rect. */
  ghost function AtlasView(b: Backend): map<ImageId, TextureAtlas.Rect>
  {
    map id | id in b.images && Has(b.images[id].state, StateInAtlas) :: b.images[id].rect
  }

  /** Setting the atlas state records the rect in the residency view. */
  lemma SetTextureAtlasStateView(b: Backend, id: ImageId, rect: TextureAtlas.Rect)
    requires b.Valid() && id in b.images
    ensures AtlasView(SetTextureAtlasState(b, id, rect)) == AtlasView(b)[id := rect]
  {
  }

  /** Updating the atlas drops exactly the packed images from the residency view. */
  lemma UpdateTextureAtlasView(b: Backend, packed: seq<ImageId>)
    requires b.Valid() && forall i :: 0 <= i < |packed| ==> packed[i] in b.images
    ensures AtlasView(UpdateTextureAtlas(b, packed)) == AtlasView(b) - Members(packed)
  {
  }

  // ------------------------------------------------------- bindless table

  /** Table entries that are alive carry BOUND and their index; every BOUND image sits at its id. */
  ghost predicate TableConsistent(b: Backend)
  {
    (forall t :: 0 <= t < |b.table| && b.table[t] in b.images ==>
       Has(b.images[b.table[t]].state, StateBound) && b.images[b.table[t]].textureId == t)
    && (forall id :: id in b.images && Has(b.images[id].state, StateBound) ==>
       b.images[id].textureId < |b.table| && b.table[b.images[id].textureId] == id)
  }

  /**
   * `addImageToTable`: a BOUND image returns its cached id; otherwise it takes
   * id `imageNum`, is stored there, and becomes BOUND. The array is not
   * bounds-checked, so a new image needs a free entry.
   */
  function AddImageToTable(b: Backend, id: ImageId): (r: (Backend, nat))
    requires b.Valid() && id in b.images
    requires Has(b.images[id].state, StateBound) || |b.table| < BindlessTable.MaxBoundImages
    ensures r.0.Valid() && r.0.images.Keys == b.images.Keys
    ensures Has(b.images[id].state, StateBound) ==> r == (b, b.images[id].textureId)
    ensures !Has(b.images[id].state, StateBound) ==>
      r.1 == |b.table| && r.0.table == b.table + [id]
      && Has(r.0.images[id].state, StateBound) && r.0.images[id].textureId == r.1
    ensures forall other :: other in b.images && other != id ==> r.0.images[other] == b.images[other]
    ensures r.0.uploads == b.uploads && r.0.toDestroy == b.toDestroy
  {
    var rec := b.images[id];
    if rec.state & StateBound > 0 then (b, rec.textureId)
    else
      var textureId := |b.table|;
      (b.(table := b.table + [id], images := b.images[id := rec.(state := rec.state | StateBound, textureId := textureId)]), textureId)
  }

  /** The bindless part of `drawFrame`: every tabled image loses BOUND and `imageNum` returns to 0. */
  function ClearTable(b: Backend): (r: Backend)
    requires b.Valid() && forall t :: 0 <= t < |b.table| ==> b.table[t] in b.images
    ensures r.Valid() && r.table == [] && r.images.Keys == b.images.Keys
    ensures TableConsistent(b) ==> forall id :: id in r.images ==> !Has(r.images[id].state, StateBound)
    ensures forall id :: id in b.images ==> r.images[id].state | StateBound == b.images[id].state | StateBound
    ensures r.uploads == b.uploads && r.toDestroy == b.toDestroy
  {
    var images := ApplyAll(b.images, b.table, ClearBound);
    ClearedStates(b, images);
    b.(images := images, table := [])
  }

  /** Clearing BOUND on every tabled image leaves no image BOUND when the table was consistent. */
  lemma ClearedStates(b: Backend, images: map<ImageId, ImageRec>)
    requires images.Keys == b.images.Keys
    requires forall id :: id in b.images && id in b.table ==> images[id] == Apply(ClearBound, b.images[id])
    requires forall id :: id in b.images && id !in b.table ==> images[id] == b.images[id]
    ensures TableConsistent(b) ==> forall id :: id in images ==> !Has(images[id].state, StateBound)
    ensures forall id :: id in b.images ==> images[id].state | StateBound == b.images[id].state | StateBound
  {
    ClearedKeepsOtherBits(b, images);
    if TableConsistent(b) {
      forall id | id in images ensures !Has(images[id].state, StateBound) {
        var st := b.images[id].state;
        if id in b.table {
          ClearBoundBits(st);
        }
      }
    }
  }

  /** Clearing BOUND changes no other state bit. */
  lemma ClearedKeepsOtherBits(b: Backend, images: map<ImageId, ImageRec>)
    requires images.Keys == b.images.Keys
    requires forall id :: id in b.images && id in b.table ==> images[id] == Apply(ClearBound, b.images[id])
    requires forall id :: id in b.images && id !in b.table ==> images[id] == b.images[id]
    ensures forall id :: id in b.images ==> images[id].state | StateBound == b.images[id].state | StateBound
  {
    forall id | id in b.images ensures images[id].state | StateBound == b.images[id].state | StateBound {
      if id in b.table {
        ClearBoundBits(b.images[id].state);
      }
    }
  }

  lemma ClearBoundBits(s: bv32)
    ensures !Has(s & !StateBound, StateBound) && (s & !StateBound) | StateBound == s | StateBound
  {
  }

  /** The table as the canvas sees it: the `images` array and each BOUND image's id. */
  ghost function TableView(b: Backend): BindlessTable.Table
  {
    BindlessTable.Table(b.table, map id | id in b.images && Has(b.images[id].state, StateBound) :: b.images[id].textureId)
  }

  predicate TableAlive(b: Backend)
  {
    forall t :: 0 <= t < |b.table| ==> b.table[t] in b.images
  }

  /** A consistent table with live entries is a valid bindless table. */
  lemma TableViewValid(b: Backend)
    requires b.Valid() && TableConsistent(b) && TableAlive(b)
    ensures TableView(b).Valid()
  {
  }

  /** The state-bit implementation of addImageToTable agrees with the bindless table it stands for. */
  lemma AddImageToTableRefines(b: Backend, id: ImageId)
    requires b.Valid() && TableConsistent(b) && TableAlive(b) && id in b.images
    requires Has(b.images[id].state, StateBound) || |b.table| < BindlessTable.MaxBoundImages
    ensures TableView(b).Valid()
    ensures var r := AddImageToTable(b, id);
      var a := BindlessTable.AddImage(TableView(b), id);
      TableConsistent(r.0) && TableAlive(r.0) && TableView(r.0) == a.0 && r.1 == a.1
  {
    var r := AddImageToTable(b, id);
    if !Has(b.images[id].state, StateBound) {
      assert id !in TableView(b).ids;
      assert TableView(r.0).ids == TableView(b).ids[id := |b.table|];
    }
  }

  /** After drawFrame the table is empty again, as the bindless table's Empty. */
  lemma ClearTableRefines(b: Backend)
    requires b.Valid() && TableConsistent(b) && TableAlive(b)
    ensures TableConsistent(ClearTable(b)) && TableView(ClearTable(b)) == BindlessTable.Empty()
  {
  }

  // --------------------------------------------------- descriptor allocator

  /** NkD3D12DescriptorAllocator: a heap of handles, handed out front to back. */
  datatype DescriptorAllocator = DescriptorAllocator(capacity: nat, handleSize: nat, gpuBase: nat, cpuBase: nat, used: nat)

  /** A run of descriptors: the GPU and CPU handles of its first entry and the handle stride. */
  datatype DescriptorTable = DescriptorTable(gpuHandle: nat, cpuHandle: nat, handleSize: nat)

  /** `init`: the heap starts empty. */
  function InitDescriptors(capacity: nat, handleSize: nat, gpuBase: nat, cpuBase: nat): (a: DescriptorAllocator)
    ensures a.used == 0 && a.capacity == capacity && a.handleSize == handleSize
    ensures a.gpuBase == gpuBase && a.cpuBase == cpuBase
  {
    DescriptorAllocator(capacity, handleSize, gpuBase, cpuBase, 0)
  }

  /** `reset`: hands the whole heap out again. */
  function ResetDescriptors(a: DescriptorAllocator): (r: DescriptorAllocator)
    ensures r.used == 0 && r == a.(used := 0)
  {
    a.(used := 0)
  }

  /**
   * `allocate(n)`: the run starts `used` handles past the heap base and
   * `used` grows by n. No check against the heap capacity is made.
   */
  function Allocate(a: DescriptorAllocator, n: nat): (r: (DescriptorAllocator, DescriptorTable))
    ensures r.0 == a.(used := a.used + n)
    ensures r.1.handleSize == a.handleSize
    ensures r.1.gpuHandle - a.gpuBase == r.1.cpuHandle - a.cpuBase == a.used * a.handleSize
  {
    (a.(used := a.used + n),
     DescriptorTable(a.gpuBase + a.used * a.handleSize, a.cpuBase + a.used * a.handleSize, a.handleSize))
  }

  function Sum(ns: seq<nat>): nat
  {
    if ns == [] then 0 else Sum(ns[..|ns| - 1]) + ns[|ns| - 1]
  }

  /** A sequence of allocations, one run per request. */
  function AllocateEach(a: DescriptorAllocator, ns: seq<nat>): (r: (DescriptorAllocator, seq<DescriptorTable>))
    ensures |r.1| == |ns| && r.0 == a.(used := a.used + Sum(ns))
    ensures forall i :: 0 <= i < |ns| ==> r.1[i].gpuHandle == a.gpuBase + (a.used + Sum(ns[..i])) * a.handleSize
    decreases |ns|
  {
    if ns == [] then (a, [])
    else
      var front := AllocateEach(a, ns[..|ns| - 1]);
      var last := Allocate(front.0, ns[|ns| - 1]);
      assert ns[..|ns| - 1][..|ns| - 1] == ns[..|ns| - 1];
      assert forall i :: 0 <= i < |ns| - 1 ==> ns[..|ns| - 1][..i] == ns[..i];
      (last.0, front.1 + [last.1])
  }

  /** Runs handed out between two resets follow one another and never overlap. */
  lemma {:induction false} AllocationsDisjoint(a: DescriptorAllocator, ns: seq<nat>, i: nat, j: nat)
    requires i < j < |ns|
    ensures var ts := AllocateEach(a, ns).1;
      ts[i].gpuHandle + ns[i] * a.handleSize <= ts[j].gpuHandle
  {
    var ts := AllocateEach(a, ns).1;
    SumPrefixGrows(ns, i, j);
    var si, sj := Sum(ns[..i]), Sum(ns[..j]);
    assert si + ns[i] <= sj;
    MulMonotoneLeft(a.used + si + ns[i], a.used + sj, a.handleSize);
    assert (a.used + si) * a.handleSize + ns[i] * a.handleSize == (a.used + si + ns[i]) * a.handleSize;
  }

  lemma MulMonotoneLeft(x: nat, y: nat, k: nat)
    requires x <= y
    ensures x * k <= y * k
  {
  }

  lemma {:induction false} SumPrefixGrows(ns: seq<nat>, i: nat, j: nat)
    requires i < j <= |ns|
    ensures Sum(ns[..i]) + ns[i] <= Sum(ns[..j])
    decreases j
  {
    assert ns[..j][..j - 1] == ns[..j - 1];
    if j == i + 1 {
      assert ns[..j][j - 1] == ns[i];
    } else {
      SumPrefixGrows(ns, i, j - 1);
    }
  }
}
