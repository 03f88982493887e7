# libnk core in Dafny

libnk is a small 2D canvas engine. Every frame, drawing calls become
textured quads. The quads are gathered into per-frame vertex buffers and
into draw batches, one batch per run of quads that share an image. Optional
modes pack images into a 4096×4096 texture atlas or give each image a
bindless texture id. This project models that batching core and the pure
pieces around it:

- the affine matrix and the bounded matrix stack;
- the vertex-buffer pool, the batch list and the `pushQuad` batching rule;
- the fixed quad index pattern;
- the two-slot frame clock with its fence wait values;
- the quads and UVs that `drawImage` and `drawRect` emit;
- the guillotine texture packer;
- the D3D12 backend's bookkeeping: the format size table, the growable
  image array, the descriptor bump allocator, the upload-once and
  atlas/bound state bits, the deferred destroy lists and the bindless table;
- the bit and arithmetic utilities, the bit scans and the colour packing
  macros;
- the ring of temporary log strings and the memory hook fallback;
- the HID state machine fed by the WebAssembly and Windows event pumps;
- the `bin2c.py` shader-embedding script, as a pure text function;
- the data structures of the example game nigogame: the LIFO pool, the
  free-list object allocator, spatial-grid cells with swap-remove, the
  tilemap, particle and bomb conservation, the sprite animation state
  machine, and the scene image cache with scene switching.

Everything is immutable datatypes and pure functions. There is one module
per source component, in one `.dfy` file each:

- `limits.dfy` holds the size constants;
- `matrix.dfy`, `indices.dfy`, `frames.dfy` and `canvas.dfy` hold the canvas;
- `atlas.dfy`, `growable.dfy` and `bindless.dfy` hold the texture
  containers;
- `d3d12.dfy` holds the backend bookkeeping;
- `bits.dfy`, `colors.dfy` and `logging.dfy` hold the utilities;
- `hid.dfy` holds the input state machine;
- `bin2c.dfy` holds the script;
- `pool.dfy`, `allocator.dfy`, `tilemap.dfy`, `actors.dfy`, `player.dfy`
  and `scenes.dfy` hold the game;
- `wrappers.dfy` holds `Option`, and `images.dfy` holds the image record.

Conventions:

- `NK_ASSERT` only breaks into a debugger and never halts, so the
  capacity checks it guards become preconditions.
- The game's `<assert.h>` asserts are read with release semantics, so a
  failed bound leaves the structure unchanged. This is what the source
  does when the assert is compiled out.
- Floats are `real`. Unsigned sizes are `nat`. The bit utilities and
  colours use `bv32`/`bv64` where the arithmetic is bitwise.

## Model

| member | source | states |
|---|---|---|
| CanvasLimits.DerivedLimits | src/backend/canvas_internal.h:8-27 | A quad has 4 vertices and 6 indices. A buffer holds 65536 quads, i.e. 262144 vertices and 393216 indices, and the index count maps back exactly to the vertex count. There are 128 buffers, 4096 batches and a stack depth of 1024. |
| QuadIndices.BuildIndices | src/backend/canvas_internal.cpp:81-94 | The index buffer has 393216 entries. Quad q's six indices are 4q+{0,1,2,0,2,3}, so every index names a vertex below 262144. |
| CanvasMatrix.Load | src/backend/canvas_internal.h:90-97 | Loading six values sets a, b, c, d, tx, ty in that order. |
| CanvasMatrix.IdentityIsNeutral | src/backend/canvas_internal.h:86-101 | `init`/`identity` load {1,0,0,1,0,0}, and `multiply` by it maps every point to itself. |
| CanvasMatrix.Translate | src/backend/canvas_internal.h:102-107 | Translating keeps the linear part a, b, c, d. |
| CanvasMatrix.TranslateComposes | src/backend/canvas_internal.h:102-135 | After `translate(x,y)`, transforming p equals the old matrix transforming p+(x,y). |
| CanvasMatrix.Rotate | src/backend/canvas_internal.h:108-119 | Rotating keeps the translation tx, ty. |
| CanvasMatrix.RotateComposes | src/backend/canvas_internal.h:108-135 | After rotating by (cos c, sin s), transforming p equals the old matrix transforming (c·px−s·py, s·px+c·py). |
| CanvasMatrix.Scale | src/backend/canvas_internal.h:120-125 | Scaling keeps the translation tx, ty. |
| CanvasMatrix.ScaleComposes | src/backend/canvas_internal.h:120-135 | After `scale(x,y)`, transforming p equals the old matrix transforming (px·x, py·y). |
| CanvasMatrix.InitStack | src/backend/canvas_internal.h:147 | A new stack has depth 0 and the identity as the current matrix. |
| CanvasMatrix.PushMatrix | src/backend/canvas_internal.h:148-152 | Below full depth, push saves the current matrix at `depth`, increments the depth and keeps the current matrix. At depth 1024 it is a silent no-op. |
| CanvasMatrix.PopMatrix | src/backend/canvas_internal.h:153-157 | On a non-empty stack, pop restores the top saved matrix and decrements the depth. On an empty stack nothing changes. |
| CanvasMatrix.PushPopRestores | src/backend/canvas_internal.h:148-157 | Below full depth, push followed by pop gives back the same stack. |
| CanvasMatrix.PushPopAtFullDepth | src/backend/canvas_internal.h:148-157 | At full depth the push is lost, so the pop that follows restores the previously saved matrix, not the current one. |
| CanvasMatrix.StackTranslate | src/backend/canvas_internal.h:158 | The stack's `translate` changes only the current matrix, as `Translate` does. |
| CanvasMatrix.StackRotate | src/backend/canvas_internal.h:159 | The stack's `rotate` changes only the current matrix, as `Rotate` does. |
| CanvasMatrix.StackScale | src/backend/canvas_internal.h:160 | The stack's `scale` changes only the current matrix, as `Scale` does. |
| CanvasMatrix.LoadIdentity | src/backend/canvas_internal.h:161 | `loadIdentity` resets only the current matrix, leaving the saved ones. |
| FrameClock.Init | src/backend/canvas_internal.cpp:101 | The clock starts at frame 1 in slot 0, with both wait values 0. |
| FrameClock.Swap | src/backend/canvas_internal.cpp:263-271 | Swapping records the current frame as the current slot's wait value and leaves the other slot's wait value alone. It advances the frame by one. It selects slot (new frame mod 2) and records the old slot as the last one. If every wait value was from an earlier frame, this stays true. |
| FrameClock.AfterFramesState | src/backend/canvas_internal.cpp:263-271 | After n frames the clock is at frame n+1, in slot (n+1) mod 2 (slot 0 for frame 1), and each slot waits on the last frame that used it. |
| FrameClock.FrameWaits | src/backend/canvas_internal.cpp:250-252 | The value frame f waits on, before reusing its slot, is 0 for frames 1 and 3, 1 for frame 2, and f−2 from frame 4 on. |
| FrameClock.FirstSlots | src/backend/canvas_internal.cpp:101 | Frames 1 and 2 both use slot 0, because `currentFrame` starts at 1 while the zero-allocated slot index starts at 0. Frame 3 uses slot 1. |
| Canvas.InitPool | src/backend/canvas_internal.cpp:5-10 | A new vertex-buffer pool is empty. |
| Canvas.ResetPool | src/backend/canvas_internal.cpp:20 | Reset only zeroes the count of buffers in use. The buffers themselves are kept for reuse. |
| Canvas.Allocate | src/backend/canvas_internal.cpp:22-38 | `allocate` hands out slot `num` with no vertices and increments `num`. It creates storage only for a slot never used before, and leaves every other buffer as it was. |
| Canvas.ResetThenAllocate | src/backend/canvas_internal.cpp:22-38 | After `reset`, k allocations hand out slots 0..k-1 with no vertices and leave the higher slots as they were. Storage is created only past the high-water mark, so the pool ends with max(high-water mark, k) slots. |
| Canvas.Last | src/backend/canvas_internal.cpp:60-65 | `last()` is null exactly when the list is empty, and otherwise it is the newest batch. |
| Canvas.AddBatch | src/backend/canvas_internal.cpp:52-58 | `add` appends the batch, which becomes `last()`, and keeps the earlier batches. |
| Canvas.Init | src/backend/canvas_internal.cpp:67-109 | A new canvas is outside a frame, at frame 1 in slot 0, with no current buffer, no white image and the identity matrix. Every slot's pool and batch list is empty. |
| Canvas.EnsureBuffer | src/backend/canvas_internal.cpp:154-162 | When there is no current buffer, or 4 more vertices would overflow it, a fresh buffer becomes current. The current batch, if any, continues as a new empty batch at offset 0 of that buffer. Otherwise nothing changes. |
| Canvas.EnsureBatch | src/backend/canvas_internal.cpp:164-170 | A new batch at the buffer's current vertex count opens when there is none yet, or when image changes split batches and the image differs. Otherwise the frame is unchanged. |
| Canvas.WriteQuad | src/backend/canvas_internal.cpp:172-189 | Writing appends the quad's vertices to the current buffer and adds 6 to the last batch's count. Every other buffer and batch stays as it was. |
| Canvas.PlaceQuad | src/backend/canvas_internal.cpp:172-187 | Each written vertex is the input vertex transformed by the current matrix. In bindless mode its texture id is the table id. |
| Canvas.PushQuad | src/backend/canvas_internal.cpp:152-190 | `pushQuad` keeps the canvas invariant and leaves a current buffer. It touches only the current slot's pool and batches, and touches the bindless table only in bindless mode. |
| Canvas.PushFrame | src/backend/canvas_internal.cpp:152-190 | The three stages of `pushQuad` keep the frame's shape invariant: batches lie inside their buffers, are non-empty and follow each other. |
| Canvas.WithFrame | src/backend/canvas_internal.cpp:152-190 | Storing the current slot's frame back keeps the canvas valid and leaves the other slot untouched. |
| Canvas.EnsureBufferShape | src/backend/canvas_internal.cpp:154-162 | Switching to a fresh buffer keeps the shape invariant, with only the new batch allowed to be empty. |
| Canvas.EnsureBatchShape | src/backend/canvas_internal.cpp:164-170 | Opening a batch keeps the shape invariant. |
| Canvas.OpenBatchShape | src/backend/canvas_internal.cpp:198-206 | A batch opened at the current buffer's vertex count keeps the shape invariant. |
| Canvas.WriteQuadShape | src/backend/canvas_internal.cpp:172-189 | After the write, no batch is empty, so the full shape invariant holds again. |
| Canvas.OpensAtMostOneBatch | src/backend/canvas_internal.cpp:154-170 | When the buffer stage already opened a batch, the batch stage opens none, so no empty batch is left behind. |
| Canvas.PushQuadExtendsBatch | src/backend/canvas_internal.cpp:152-190 | A quad with the current batch's image, and with room in the buffer, adds no batch. It grows the last batch's count by 6 and the buffer by 4 vertices. |
| Canvas.PushQuadSplitsOnImage | src/backend/canvas_internal.cpp:164-170 | With atlas and bindless off, a different image opens a batch at the pre-write vertex count with count 6, in the same buffer. |
| Canvas.PushQuadSplitsOnOverflow | src/backend/canvas_internal.cpp:154-162 | When 4 more vertices would exceed 262144, even a quad with the same image moves to a fresh buffer. It opens a batch at offset 0 with count 6. |
| Canvas.PushQuadWrites | src/backend/canvas_internal.cpp:172-179 | The written quad carries the input corners transformed by the current matrix, and keeps the input UVs and colours. |
| Canvas.BatchesInsideBuffers | src/backend/canvas_internal.cpp:152-216 | Every batch uses an allocated buffer and has a positive count that is a multiple of 6. Its offset plus count/6·4 is within its buffer's vertex count. |
| Canvas.BeginFrame | src/backend/canvas_internal.cpp:238-259 | `beginFrame` creates the 2×2 white image only once. It empties the slot's pool (keeping the storage) and batch list and clears the current buffer. With the atlas on, it resets the atlas every frame. |
| Canvas.SwapFrame | src/backend/canvas_internal.cpp:263-271 | `swapFrame` advances the clock as `Swap` does and clears the current buffer. It leaves the pools and batches for the GPU to read. |
| Canvas.EndFrame | src/backend/windows/windows_canvas_d3d12.cpp:1587-1595 | Ending a frame keeps the drawn batches. It drops the residency of every image packed this frame and, in bindless mode, empties the table. |
| Canvas.QuadVertices | src/backend/canvas_internal.cpp:366-369 | The quad's corners are (x,y), (x,y+h), (x+w,y+h), (x+w,y), with UVs (u0,v0), (u0,v1), (u1,v1), (u1,v0), all in one colour. |
| Canvas.ImageUVs | src/backend/canvas_internal.cpp:360-364 | The UVs are the frame's edges divided by the image size: u0·width = fx, u1·width = fx+fw, and the same for v. |
| Canvas.AtlasUVs | src/backend/canvas_internal.cpp:353-359 | In the atlas, the frame's edges are shifted by the placed rect's origin and divided by the 4096 atlas size. |
| Canvas.DrawImage | src/backend/canvas_internal.cpp:347-371 | The full `drawImage` pushes one quad. Its corners are the transformed corners of (x,y,w,h), in the order top-left, bottom-left, bottom-right, top-right. Its UVs come from the frame, over the image size or at the atlas position. Every vertex has the given colour. In atlas mode the image is placed in the atlas first. The clock and matrix stack are unchanged. |
| Canvas.WithAtlasImage | src/backend/canvas_internal.cpp:353-359 | With the atlas on, the image is made resident first, as `addImage` does. Otherwise the canvas is unchanged. |
| Canvas.DrawImageAt | src/backend/canvas_internal.cpp:316-320 | `drawImage(x,y,image)` pushes a quad that covers (x,y) to (x+width,y+height) through the current matrix. It samples the whole image, 0 to width and 0 to height, in the current mode. All four vertices are opaque white. |
| Canvas.DrawImageAtTinted | src/backend/canvas_internal.cpp:322-326 | The tinted overload draws the same image-sized quad over the whole image, with the given colour on every vertex. |
| Canvas.DrawImageSized | src/backend/canvas_internal.cpp:328-331 | `drawImage(x,y,w,h,image)` pushes a w×h quad at (x,y). It samples the frame (0,0,w,h) of the image, not the whole image. Every vertex is opaque white. |
| Canvas.DrawImageSizedTinted | src/backend/canvas_internal.cpp:333-336 | The sized tinted overload pushes the same w×h quad sampling the frame (0,0,w,h), with the given colour on every vertex. |
| Canvas.DrawImageFrame | src/backend/canvas_internal.cpp:338-345 | The frame overload pushes a quad of the whole image's size at (x,y), whatever the frame size. It samples the frame (fx,fy,fw,fh) with the given colour. |
| Canvas.DrawRect | src/backend/canvas_internal.cpp:310-314 | `drawRect` pushes a w×h quad at (x,y). It samples the white image's frame (0,0,2,2), with the given colour on every vertex. |
| Canvas.FirstQuadOfFrame | src/backend/canvas_internal.cpp:152-190 | The first quad of a frame allocates buffer 0 and one batch at offset 0 with count 6. In bindless mode it binds the image. |
| Canvas.SameImageQuadsShareBatch | src/backend/canvas_internal.cpp:164-179 | Two quads with one image at the start of a frame share a single batch of count 12. |
| Canvas.SecondQuadSameImage | src/backend/canvas_internal.cpp:164-179 | A second quad with the image of the frame's only batch extends it to count 12. |
| Canvas.DifferentImagesSplit | src/backend/canvas_internal.cpp:164-170 | With atlas and bindless off, two quads with different images give two batches, at offsets 0 and 4. |
| Canvas.DrawImageAtWholeImage | src/backend/canvas_internal.cpp:316-320 | Without the atlas, `drawImage(x,y,image)` samples UVs (0,0) to (1,1) and covers (x,y) to (x+width,y+height). |
| Canvas.DrawImageSizedSamplesCorner | src/backend/canvas_internal.cpp:328-331 | The sized overload samples only the top-left w×h of the image: UVs (0,0) to (w/width, h/height). |
| Canvas.DrawImageFrameSamples | src/backend/canvas_internal.cpp:338-345 | Without the atlas, any frame (fx,fy,fw,fh) of any image is sampled from fx/width,fy/height to (fx+fw)/width,(fy+fh)/height. The quad covers the whole image size from (x,y). |
| Canvas.DrawImageFrameExample | src/backend/canvas_internal.cpp:338-345 | Drawing frame (16,0,16,16) of a 64×32 image samples (0.25,0) to (0.5,0.5) but covers the full 64×32 area. |
| Canvas.DrawRectWholeWhite | src/backend/canvas_internal.cpp:310-314 | `drawRect` samples the whole white image, (0,0) to (1,1), in the given colour. |
| Canvas.DrawImageAtlasUVs | src/backend/canvas_internal.cpp:353-359 | In atlas mode, the whole image's UVs are its placed rect divided by 4096. |
| Canvas.WhiteImageCreatedOnce | src/backend/canvas_internal.cpp:239-249 | The white image created by the first `beginFrame` survives `endFrame`, and later frames reuse it. |
| TextureAtlas.Split | src/backend/texture_packer.cpp:9-40 | The rect shrinks to nw×nh at the same origin. It emits no piece exactly on an exact fit, a right piece iff nw<w, a bottom piece iff nh<h, and a corner piece iff both. |
| TextureAtlas.SplitTiles | src/backend/texture_packer.cpp:18-39 | The shrunk rect and the pieces cover every pixel of the original exactly once and nothing outside it. |
| TextureAtlas.SplitConservesArea | src/backend/texture_packer.cpp:18-39 | The areas of the shrunk rect and the pieces sum to w·h. |
| TextureAtlas.FirstFit | src/backend/texture_packer.cpp:114-120 | The chosen free rect is the first in array order that can fit w×h. There is none iff no free rect fits. |
| TextureAtlas.Init | src/backend/texture_packer.cpp:87-95 | A new atlas has one free rect covering it, no used rects and no images, and it satisfies the tiling invariant. |
| TextureAtlas.Reset | src/backend/texture_packer.cpp:105-110 | Reset restores the single free rect, forgets used rects and images, and keeps the arrays' capacity. |
| TextureAtlas.AddRect | src/backend/texture_packer.cpp:112-132 | Zero size, or no fitting free rect, returns nothing and changes nothing. Otherwise the placed rect has the requested size at the origin of the first fitting free rect. The free list becomes that list with the chosen slot swap-removed, followed by the split pieces. The placed rect is appended to the used rects. |
| TextureAtlas.RemoveAccounting | src/backend/texture_packer.cpp:70-77 | Swap-removing a free rect takes away exactly its pixel coverage and its area. |
| TextureAtlas.AddRectPreservesValid | src/backend/texture_packer.cpp:112-132 | Placing a rect keeps free and used rects tiling the atlas: every pixel is covered exactly once, and the areas sum to width·height. |
| TextureAtlas.ValidDisjointInside | src/backend/texture_packer.cpp:112-132 | Under the invariant, every free or used rect lies inside the atlas and no two rects share a pixel. |
| TextureAtlas.AddImage | src/backend/texture_packer.cpp:149-163 | A resident image returns its stored rect with nothing allocated. Otherwise an image-sized rect is placed and recorded, and the image is marked resident. |
| TextureAtlas.AddImageIdempotent | src/backend/texture_packer.cpp:149-163 | Adding the same image again returns the identical rect and changes nothing. |
| TextureAtlas.AddImagePreservesValid | src/backend/texture_packer.cpp:149-163 | Adding an image keeps the atlas tiling invariant. |
| GrowableArray.Init | src/backend/windows/windows_canvas_d3d12.cpp:612-616 | A new array is empty with capacity 16. |
| GrowableArray.Add | src/backend/windows/windows_canvas_d3d12.cpp:622-631 | `add` appends in order. It doubles the capacity exactly when the array is full. |
| GrowableArray.AddAll | src/backend/windows/windows_canvas_d3d12.cpp:622-631 | Adding several elements appends them in order, and the capacity never shrinks. |
| GrowableArray.Remove | src/backend/texture_packer.cpp:70-77 | `remove(i)` moves the last element into slot i and drops one copy of the removed element, with the capacity unchanged. |
| GrowableArray.Reset | src/backend/windows/windows_canvas_d3d12.cpp:620 | `reset` empties the array and keeps its capacity. |
| BindlessTable.Empty | src/backend/windows/windows_canvas_d3d12.cpp:1593-1595 | The cleared table has no images and no ids. |
| BindlessTable.AddImage | src/backend/windows/windows_canvas_d3d12.cpp:1756-1766 | A bound image keeps its id. A new image gets the next dense id and is appended, keeping ids and images a bijection. |
| BindlessTable.IdsDistinct | src/backend/windows/windows_canvas_d3d12.cpp:1756-1766 | Two different bound images have different ids. |
| BindlessTable.AddImageTwice | src/backend/windows/windows_canvas_d3d12.cpp:1756-1766 | Binding an image twice returns the same id and the same table. |
| D3D12Backend.FormatBytes | src/backend/windows/windows_canvas_d3d12.cpp:559-561 | The byte size is the bit size divided by 8, rounded down. |
| D3D12Backend.FormatSizes | src/backend/windows/windows_canvas_d3d12.cpp:417-561 | R8G8B8A8_UNORM is 32 bits and 4 bytes. Unlisted formats are 0 bits and 0 bytes. |
| D3D12Backend.SubByteFormats | src/backend/windows/windows_canvas_d3d12.cpp:417-561 | Integer division makes the 1-bit and 4-bit formats 0 bytes, and the 12-bit NV12 format 1 byte. |
| D3D12Backend.FormatBitsValues | src/backend/windows/windows_canvas_d3d12.cpp:417-557 | Every format has one of the sizes 0, 1, 4, 8, 12, 16, 24, 32, 64, 96 or 128 bits. |
| D3D12Backend.ApplyAll | src/backend/windows/windows_canvas_d3d12.cpp:1376-1441 | A state change is applied to exactly the listed images, and every other image is left as it was. |
| D3D12Backend.ApplyIdempotent | src/backend/windows/windows_canvas_d3d12.cpp:1376-1441 | Applying a state change twice is the same as applying it once. |
| D3D12Backend.Init | src/backend/windows/windows_canvas_d3d12.h:139-145 | A new backend has no images, an empty bindless table and empty per-slot upload and destroy lists. |
| D3D12Backend.ProcessImage | src/backend/windows/windows_canvas_d3d12.cpp:1680-1685 | An image in state 0 is queued on the slot's upload list and marked SAVED. Any other image is left alone. |
| D3D12Backend.ProcessImageOnce | src/backend/windows/windows_canvas_d3d12.cpp:1680-1685 | Processing an image again, for any slot, changes nothing, so each image is queued at most once. |
| D3D12Backend.ProcessImageKeepsUploads | src/backend/windows/windows_canvas_d3d12.cpp:1680-1685 | Processing keeps the upload invariant: queued images are SAVED, not UPLOADED, still hold CPU data, and are queued once. |
| D3D12Backend.CreateImage | src/backend/windows/windows_canvas_d3d12.cpp:300-358 | A created image starts in state 0 with CPU data and is then processed, so it ends SAVED and queued on the slot. Other images are untouched. Whatever format is asked for, the texture is R8G8B8A8_UNORM with 4 bytes per pixel (lines 306 and 339). |
| D3D12Backend.CreateImageKeepsUploads | src/backend/windows/windows_canvas_d3d12.cpp:300-358 | Creating an image keeps the upload invariant. |
| D3D12Backend.UploadFrame | src/backend/windows/windows_canvas_d3d12.cpp:1376-1441 | Every image queued on the slot becomes UPLOADED and loses its CPU data, and the slot's list is emptied. The other slot and the unqueued images are unchanged. |
| D3D12Backend.UploadFrameKeepsUploads | src/backend/windows/windows_canvas_d3d12.cpp:1376-1441 | The upload loop keeps the upload invariant. |
| D3D12Backend.UploadedNeverRequeued | src/backend/windows/windows_canvas_d3d12.cpp:1376-1441 | Once uploaded, an image is never queued again. |
| D3D12Backend.DestroyImage | src/backend/windows/windows_canvas_d3d12.cpp:1287-1293 | Null returns false and changes nothing. Otherwise the image is appended to the slot's destroy list, stays alive for now, and the call returns true. |
| D3D12Backend.Present | src/backend/windows/windows_canvas_d3d12.cpp:1261-1269 | `present` destroys exactly the images on the slot's list and empties that list. |
| D3D12Backend.DestroyAll | src/backend/windows/windows_canvas_d3d12.cpp:1088-1096 | `destroy` destroys the images on every slot's list and empties all lists. |
| D3D12Backend.DestroyIsDeferred | src/backend/windows/windows_canvas_d3d12.cpp:1261-1293 | A destroyed image stays alive until its own slot is presented. Presenting the other slot keeps it alive. |
| D3D12Backend.PresentKeepsInvariants | src/backend/windows/windows_canvas_d3d12.cpp:1261-1269 | Presenting keeps the upload and bindless-table invariants. |
| D3D12Backend.SetTextureAtlasState | src/backend/windows/windows_canvas_d3d12.cpp:752-764 | Setting the atlas state marks the image as in the atlas with the given rect and changes no other state bit or image. |
| D3D12Backend.UpdateTextureAtlas | src/backend/windows/windows_canvas_d3d12.cpp:1688-1752 | Every image packed this frame loses its atlas bit, and nothing else changes. |
| D3D12Backend.SetTextureAtlasStateView | src/backend/windows/windows_canvas_d3d12.cpp:752-756 | Seen as a residency map, setting the atlas state is a map update. This is the map the atlas's `addImage` uses. |
| D3D12Backend.UpdateTextureAtlasView | src/backend/windows/windows_canvas_d3d12.cpp:1738 | Seen as a residency map, clearing the packed images removes exactly them. |
| D3D12Backend.AddImageToTable | src/backend/windows/windows_canvas_d3d12.cpp:1756-1766 | A BOUND image returns its cached id. Otherwise it gets id `imageNum`, is appended and becomes BOUND. |
| D3D12Backend.ClearTable | src/backend/windows/windows_canvas_d3d12.cpp:1587-1595 | The table is emptied and every image loses its BOUND bit, keeping its other bits. |
| D3D12Backend.TableViewValid | src/backend/windows/windows_canvas_d3d12.cpp:1756-1766 | The state bits and the image table form a valid bindless table: ids are dense and distinct per frame. |
| D3D12Backend.AddImageToTableRefines | src/backend/windows/windows_canvas_d3d12.cpp:1756-1766 | `addImageToTable` on the state bits behaves exactly like `BindlessTable.AddImage` on the abstract table. |
| D3D12Backend.ClearTableRefines | src/backend/windows/windows_canvas_d3d12.cpp:1587-1595 | Clearing the state bits gives the empty abstract table. |
| D3D12Backend.InitDescriptors | src/backend/windows/windows_canvas_d3d12.cpp:563-578 | A new descriptor allocator has allocated nothing from its bases. |
| D3D12Backend.ResetDescriptors | src/backend/windows/windows_canvas_d3d12.cpp:582 | `reset` sets the allocated count to 0 and changes nothing else. |
| D3D12Backend.Allocate | src/backend/windows/windows_canvas_d3d12.cpp:584-592 | `allocate(n)` returns a table based at base + allocated·handleSize, in both heaps, and advances allocated by n. |
| D3D12Backend.AllocateEach | src/backend/windows/windows_canvas_d3d12.cpp:584-592 | Successive allocations start where the previous ones ended. |
| D3D12Backend.AllocationsDisjoint | src/backend/windows/windows_canvas_d3d12.cpp:584-592 | An earlier table ends before a later one starts, so tables are disjoint until `reset`. |
| BitUtils.AlignSizeIsLeastMultiple | src/backend/utils.h:100-102 | For a power-of-two alignment, `alignSize` returns a multiple of it that is ≥ v and less than v+alignment, when no overflow occurs. |
| BitUtils.AlignSizeRoundsDown | src/backend/utils.h:100-102 | Masking v+a−1 with ~(a−1) rounds it down to a multiple of a. |
| BitUtils.RoundUpIsLeastMultiple | src/backend/utils.h:116-118 | For roundTo > 0, `roundUp` returns the least multiple of roundTo that is ≥ value. |
| BitUtils.PtrAlignedIffRoundUpFixed | src/backend/utils.h:119-121 | An address is aligned exactly when rounding it up leaves it unchanged. Alignment ≤ 1 counts as aligned. |
| BitUtils.Popcnt | src/backend/windows/windows_utils.cpp:57 | The set-bit count is 0 only for 0, and is at most the highest bit's index plus one. |
| BitUtils.PowerOfTwoIffSingleBit | src/backend/utils.h:107-115 | `isPowerOfTwo(v)`, i.e. v & (v−1) == 0, holds exactly for 0 and for values with one set bit. |
| BitUtils.PowerOfTwoHolds | src/backend/utils.h:107-115 | Every power of two below 2^64 passes `isPowerOfTwo`. |
| BitUtils.Bsr | src/backend/windows/windows_utils.cpp:49-55 | `bsr(0)` is 64. Otherwise it is the index r of the highest set bit: 2^r ≤ v < 2^(r+1). |
| BitUtils.Bsf | src/backend/windows/windows_utils.cpp:41-47 | `bsf(0)` is 64. Otherwise it is the index r of the lowest set bit: 2^r divides v and the bit r is set. |
| BitUtils.BitScansOfPow2 | src/backend/windows/windows_utils.cpp:41-55 | For 2^k both scans return k. |
| BitUtils.BsfAtMostBsr | src/backend/windows/windows_utils.cpp:41-55 | The lowest set bit is never above the highest. |
| BitUtils.NextPowerOfTwo | src/backend/utils.h:103-106 | For 2 ≤ v ≤ 2^63, `1 << (bsr(v−1)+1)` is the least power of two ≥ v. For v ≤ 1, or above 2^63, the shift is out of range and there is no result. |
| BitUtils.NextPowerOfTwoExponent | src/backend/utils.h:103-106 | The shift amount bsr(v−1)+1 is below 64 exactly for 2 ≤ v ≤ 2^63, and then v ≤ 2^(bsr(v−1)+1) < 2v. |
| BitUtils.Abs32 | src/backend/utils.h:122-124 | A negative 32-bit value becomes its two's-complement negation ~v+1, and a non-negative one stays. The result is negative only for the minimum value, which maps to itself. |
| BitUtils.Abs64 | src/backend/utils.h:125-127 | The same as `Abs32`, for 64-bit values. |
| BitUtils.Abs32Idempotent | src/backend/utils.h:122-124 | `abs` applied twice gives the same result as once. |
| BitUtils.Max | src/backend/utils.h:141 | `max` returns one of its arguments, at least as large as both. |
| BitUtils.Min | src/backend/utils.h:142 | `min` returns one of its arguments, at most as large as both. |
| BitUtils.Clamp | src/backend/utils.h:143-146 | `clamp` gives maxValue when value ≥ maxValue, else minValue when value ≤ minValue, else value. |
| BitUtils.ClampIsMaxOfMin | src/backend/utils.h:143-146 | For minValue ≤ maxValue, `clamp` stays within the bounds and equals max(minValue, min(value, maxValue)). |
| Colors.ColorUint | include/nk/app.h:14-16 | `NK_COLOR_UINT` reverses the four bytes. |
| Colors.ColorUintInvolution | include/nk/app.h:14-16 | Applying `NK_COLOR_UINT` twice gives back the original value. |
| Colors.RgbaUint | include/nk/app.h:17-19 | Channels below 256 land in bytes 0 to 3 in the order r, g, b, a. |
| Colors.RgbUint | include/nk/app.h:20 | `NK_COLOR_RGB_UINT` always has alpha byte 0xff. |
| Colors.ColorUintOfLiteral | include/nk/app.h:14-19 | `NK_COLOR_UINT(0xRRGGBBAA)` equals `NK_COLOR_RGBA_UINT(RR,GG,BB,AA)`. |
| Colors.RgbaUintInjective | include/nk/app.h:17-19 | Different byte channels give different packed colours. |
| Colors.WhiteIsAllOnes | include/nk/app.h:14-19 | Opaque white is 0xffffffff in both forms. |
| TempStrings.Init | src/backend/windows/windows_utils.cpp:4-5 | The ring starts at buffer 0 with four empty buffers. |
| TempStrings.TempString | src/backend/windows/windows_utils.cpp:27-39 | `tempString` writes into the current buffer, returns it and advances the index mod 4. The other buffers are untouched. |
| TempStrings.LogFmt | src/backend/windows/windows_utils.cpp:12-25 | `logFmt` formats into the next ring buffer and emits that text. |
| TempStrings.TempStrings | src/backend/windows/windows_utils.cpp:27-39 | After n calls the index has advanced by n mod 4. |
| TempStrings.SurvivesThreeCalls | src/backend/windows/windows_utils.cpp:27-39 | A returned string is intact after up to three further calls. |
| TempStrings.KeepsUntouched | src/backend/windows/windows_utils.cpp:27-39 | A buffer that none of the calls reaches keeps its contents. |
| TempStrings.FourthCallReuses | src/backend/windows/windows_utils.cpp:27-39 | The fourth further call writes into the same buffer and overwrites the string. |
| TempStrings.InitMemoryFunctions | src/backend/windows/windows_utils.cpp:59-68 | When either supplied hook is null, both become the stdlib realloc/free. Otherwise the supplied pair is installed. |
| TempStrings.HalfPairDiscarded | src/backend/windows/windows_utils.cpp:59-68 | Supplying only one hook discards it in favour of stdlib. |
| Hid.ShowCursor | src/backend/wasm/wasm_hid.cpp:51-56 | `showCursor` only records the visibility. |
| Hid.Create | src/backend/hid_internal.cpp:6-20 | A new HID has every key and button up and unclicked, and the mouse, wheel and last character at 0. After `showCursor(false)` then `showCursor(true)`, its cursor is visible. |
| Hid.Destroy | src/backend/hid_internal.cpp:22-28 | `destroy` returns false for null and true otherwise. |
| Hid.BeginUpdate | src/backend/wasm/wasm_hid.cpp:7-11 | Before folding events, `update` clears every click, the last character and both wheel deltas, and keeps the down flags and the position. |
| Hid.Press | src/backend/wasm/wasm_hid.cpp:16-21 | A press marks the key down and sets its click only when it was up. Other clicks are kept. |
| Hid.Release | src/backend/wasm/wasm_hid.cpp:22-25 | A release clears both down and click for that key. |
| Hid.Step | src/backend/wasm/wasm_hid.cpp:13-48 | One event keeps the state well-formed. |
| Hid.Run | src/backend/wasm/wasm_hid.cpp:13-48 | Folding events in buffer order keeps the state well-formed and the cursor visibility. |
| Hid.StepKeepsClicksAreDown | src/backend/wasm/wasm_hid.cpp:16-43 | Every event keeps the invariant click ⇒ down for every key and button. |
| Hid.RunKeepsClicksAreDown | src/backend/wasm/wasm_hid.cpp:13-48 | Folding any event list keeps click ⇒ down. |
| Hid.RunKey | src/backend/wasm/wasm_hid.cpp:13-48 | A key's final state depends only on its own press and release events, in order: the last one decides down, and a press from up decides click. |
| Hid.RunButton | src/backend/wasm/wasm_hid.cpp:30-43 | The same holds for each mouse button. |
| Hid.Update | src/backend/wasm/wasm_hid.cpp:6-49 | After `update`, click ⇒ down holds. Each key and button ends as its own events decide, starting from its previous down flag and no click. |
| Hid.RunKeys | src/backend/wasm/wasm_hid.cpp:13-48 | `RunKey` holds for all 512 keys at once. |
| Hid.RunButtons | src/backend/wasm/wasm_hid.cpp:30-43 | `RunButton` holds for all three buttons at once. |
| Hid.WasmEffect | src/backend/wasm/wasm_hid.cpp:14-46 | KEYDOWN becomes a press and KEYUP a release. In-range events give in-range effects, and unknown events are ignored. |
| Hid.WasmEffects | src/backend/wasm/wasm_hid.cpp:13-48 | The event buffer translates entry by entry, in order, into in-range effects. |
| Hid.WasmUpdate | src/backend/wasm/wasm_hid.cpp:6-49 | The WebAssembly `update` ends with click ⇒ down and with no character or wheel input. |
| Hid.WasmLeavesCharAndWheel | src/backend/wasm/wasm_hid.cpp:14-46 | No WebAssembly event sets the last character or the wheel. |
| Hid.WasmReleaseThenPress | src/backend/wasm/wasm_hid.cpp:16-25 | A release followed by a press in one update leaves the key down and clicked. |
| Hid.WasmRepeatNoClick | src/backend/wasm/wasm_hid.cpp:16-21 | A repeated KEYDOWN for a key that is already down gives no click. |
| Hid.SignedWord | src/backend/windows/windows_hid.cpp:41-44 | The 16-bit coordinate is read as signed and agrees with the word mod 2^16. |
| Hid.LowByte | src/backend/windows/windows_hid.cpp:30-40 | The key index is wParam truncated to 8 bits. |
| Hid.WindowsEffect | src/backend/windows/windows_hid.cpp:17-88 | Every message becomes an in-range effect, and key effects name keys below 256. |
| Hid.WindowsEffects | src/backend/windows/windows_hid.cpp:14-90 | The message list translates entry by entry, in order. |
| Hid.WindowsUpdate | src/backend/windows/windows_hid.cpp:6-91 | The Windows `update` ends with click ⇒ down for every key and button. |
| Hid.WindowsHighKeysUntouched | src/backend/windows/windows_hid.cpp:30-40 | Keys 256 to 511 are never pressed by a Windows message. They keep their down flag and end unclicked. |
| Hid.WindowsKeyTruncates | src/backend/windows/windows_hid.cpp:30-36 | WM_KEYDOWN with wParam 0x141 presses key 0x41. |
| Hid.WindowsButtonIndices | src/backend/windows/windows_hid.cpp:73-86 | The middle button maps to index 1, not 2, and its message sets the mouse position. |
| Bin2C.Basename | shaders/d3d12/bin2c.py:7 | Windows `os.path.basename` first splits off a drive prefix ("C:"), which is never part of the result. The result is then the longest suffix with no `/` or `\`: it is empty or preceded by a separator or by the drive. |
| Bin2C.BasenameOfJoin | shaders/d3d12/bin2c.py:7 | A name with no separator, after any directory and separator, with or without a drive, is its own basename. So is a name right after a drive. |
| Bin2C.BasenameDriveRelative | shaders/d3d12/bin2c.py:7 | The basename of "C:foo.h" is "foo.h". |
| Bin2C.BasenameDropsDirectory | shaders/d3d12/bin2c.py:7 | The basename of "out/vs.h" is "vs.h". |
| Bin2C.BasenameDriveRoot | shaders/d3d12/bin2c.py:7 | The basename of "C:\ps.h" is "ps.h": a backslash after the drive is a separator. |
| Bin2C.SplitExt | shaders/d3d12/bin2c.py:7-9 | The stem and extension concatenate to the name. The extension is empty or a dot followed by no other dot, and leading dots are never an extension. |
| Bin2C.Upper | shaders/d3d12/bin2c.py:9 | `upper()` maps a to z onto A to Z and keeps every other character. |
| Bin2C.DotsToUnderscores | shaders/d3d12/bin2c.py:9 | Every "." becomes "_", and nothing else changes. |
| Bin2C.Guard | shaders/d3d12/bin2c.py:7-9 | The guard is "_", then the upper-cased output stem with dots replaced, then "_". It contains no dot and no lower-case letter. |
| Bin2C.GuardChars | shaders/d3d12/bin2c.py:9 | After upper-casing and replacing dots, no dot or lower-case letter remains. |
| Bin2C.Hex | shaders/d3d12/bin2c.py:29 | Each byte is written as "0x" and two upper-case hex digits that decode back to the byte. |
| Bin2C.HexDecodes | shaders/d3d12/bin2c.py:29 | A byte's token followed by ", " parses back to that byte. |
| Bin2C.TokenDecodes | shaders/d3d12/bin2c.py:27-31 | A token with its indentation and line break still parses back to its byte. |
| Bin2C.RowsRoundTrip | shaders/d3d12/bin2c.py:26-31 | The array body written for a file parses back to exactly the file's bytes, in order. |
| Bin2C.RowsNewlines | shaders/d3d12/bin2c.py:27-31 | A line break follows byte i exactly when (i+1) mod 12 = 0. |
| Bin2C.Decimal | shaders/d3d12/bin2c.py:33 | The size is written as decimal digits with no leading zero. |
| Bin2C.DecimalRoundTrip | shaders/d3d12/bin2c.py:33 | The written size parses back to the byte count. |
| Bin2C.ConvertToCHeader | shaders/d3d12/bin2c.py:4-42 | The header opens with `#ifndef`/`#define` of the guard and closes with `#endif // guard`. |
| Bin2C.ArraysSplit | shaders/d3d12/bin2c.py:16-33 | The arrays text is the arrays of the inputs before k, then input k's array, then the arrays of the inputs after k. |
| Bin2C.HeaderLayout | shaders/d3d12/bin2c.py:13-35 | For every input k, the header is the opening guard, the arrays of inputs 0..k−1, input k's array, the arrays of the later inputs, and the closing guard. |
| Bin2C.HeaderOrder | shaders/d3d12/bin2c.py:16-33 | For j < k, input j's array comes before input k's array. Only the arrays of the inputs between them separate the two. |
| Bin2C.ArraysEmbedEachInput | shaders/d3d12/bin2c.py:16-33 | Every input appears as its own array text, whose bytes and size parse back to the input's bytes and length. |
| Bin2C.ParseArgs | shaders/d3d12/bin2c.py:46-52 | The command line is accepted iff it has ≥ 4 entries with "-o" second to last. The inputs are argv[1:-2] (at least one) and the output is argv[-1]. |
| Pool.Init | examples/nigogame/game/actors.h:12-16 | A new pool is empty with the given capacity. |
| Pool.Recycle | examples/nigogame/game/actors.h:18-24 | `recycle` pushes while num+1 ≤ max. Otherwise the pool is unchanged, and 0 ≤ num ≤ max is kept. |
| Pool.Get | examples/nigogame/game/actors.h:25-31 | `get` pops the most recently recycled handle. An empty pool gives null and is unchanged. |
| Pool.GetUndoesRecycle | examples/nigogame/game/actors.h:18-31 | LIFO: `get` right after `recycle` returns that handle and the previous pool. |
| Pool.RecycleUndoesGet | examples/nigogame/game/actors.h:18-31 | Recycling what `get` returned restores the pool. |
| Pool.RecycleAll | examples/nigogame/game/actors.h:18-24 | Recycling a list within capacity pushes it in order. |
| ObjectAllocator.Init | examples/nigogame/game/memory.h:14-19 | A new allocator has an empty free list and nothing handed out. |
| ObjectAllocator.Allocate | examples/nigogame/game/memory.h:28-39 | `allocate` pops the free-list head first. With an empty free list it hands out `nodes[allocated++]` while capacity remains, and it returns null when both are exhausted. |
| ObjectAllocator.Free | examples/nigogame/game/memory.h:45-51 | `free` pushes the node only when its link is null, and otherwise does nothing. |
| ObjectAllocator.Reset | examples/nigogame/game/memory.h:53-56 | `reset` empties the free list and zeroes the handed-out count. |
| ObjectAllocator.Destroy | examples/nigogame/game/memory.h:21-26 | `destroy` also zeroes the capacity, so nothing can be allocated afterwards. |
| ObjectAllocator.DoubleFreeMakesCycle | examples/nigogame/game/memory.h:45-51 | As written, freeing the free list's tail twice links it to itself, and then every allocation returns that node. |
| ObjectAllocator.StaleLinkLeaksNode | examples/nigogame/game/memory.h:28-51 | As written, a node popped from the free list keeps its link, so freeing it is ignored and the node is lost. |
| ObjectAllocator.SafeInit | examples/nigogame/game/memory.h:14-19 | The corrected allocator starts with no live node. |
| ObjectAllocator.SafeAllocate | examples/nigogame/game/memory.h:28-39 | Corrected allocation returns a node that was not live, newest freed first. It returns null only when nothing is free and the block is used up. |
| ObjectAllocator.SafeFree | examples/nigogame/game/memory.h:45-51 | Corrected `free` pushes a live node. Freeing a node that is not live changes nothing. |
| ObjectAllocator.SafeFreeIgnoresDoubleFree | examples/nigogame/game/memory.h:45-51 | With the correction, a double free is ignored, and the node is handed out once. |
| ObjectAllocator.SafeAllocateIsLifo | examples/nigogame/game/memory.h:28-51 | Freeing a node and allocating gives back that node and the previous state. |
| ObjectAllocator.SafeReuseAfterPop | examples/nigogame/game/memory.h:28-51 | With the correction, a node popped from the free list can be freed and reused again. |
| Actors.TouchFlagValues | examples/nigogame/game/actors.h:164-173 | TOUCH_ANY = UP\|DOWN\|LEFT\|RIGHT = 0b1111, FLOOR = DOWN and CEILING = UP, and the four directions are distinct bits. |
| Actors.TouchingAnyIsSomeDirection | examples/nigogame/game/actors.h:184 | `isTouching(TOUCH_ANY)` holds iff the actor touches in some direction. |
| Actors.SetPosition | examples/nigogame/game/actors.h:188-191 | `setPosition` sets both position and last to the point and changes nothing else. |
| Actors.InitActor | examples/nigogame/game/actors.cpp:43-56 | A new actor is at the point with zero velocity and acceleration, unit scale and the given size, touching in every direction. |
| Actors.CapVelocity | examples/nigogame/game/actors.cpp:58-76 | Each velocity component is clamped to [−1000, 1000]. |
| Actors.UpdateActor | examples/nigogame/game/actors.cpp:58-76 | `update` saves the position as last, adds the acceleration to the velocity and clamps it, moves by the new velocity, then shifts touching into touchingPrev and clears it. |
| Actors.UpdateStepBounded | examples/nigogame/game/actors.cpp:58-76 | One update moves an actor at most 1000 along each axis. Afterwards it touches nothing, and `wasTouching` reports the old contact. |
| Actors.OverlapSymmetric | examples/nigogame/game/actors.cpp:9-12 | Strict AABB overlap is symmetric. |
| Actors.Intersection | examples/nigogame/game/actors.cpp:14-23 | Non-overlapping rects give {0,0,0,0}. Overlapping proper rects give a proper rect inside both. |
| Actors.IntersectionHoldsCommonPoints | examples/nigogame/game/actors.cpp:4-23 | A point on both rects makes them overlap and lies on their intersection. |
| Actors.IntersectionAreaPositive | examples/nigogame/game/actors.cpp:9-23 | Proper rects overlap iff their intersection has positive area. |
| Actors.InverseRate | examples/nigogame/game/actors.cpp:386-391 | A frame rate of 0 means the animation never advances. Otherwise the period is its inverse. |
| Actors.InitSprite | examples/nigogame/game/actors.cpp:239-255 | A new sprite has no animations or frames and is not playing, and its actor is initialised. |
| Actors.AddAnimation | examples/nigogame/game/actors.cpp:333-339 | A new name is added with its frames and period. An existing name is never replaced. |
| Actors.AddAnimationKeepsFirst | examples/nigogame/game/actors.cpp:333-339 | Adding the same name twice keeps the first definition. |
| Actors.SetAnimationFrameRate | examples/nigogame/game/actors.cpp:386-391 | Only the named animation's period changes. |
| Actors.PlayAnimation | examples/nigogame/game/actors.cpp:340-352 | An unknown or already-current animation is a no-op. Otherwise play resets index and timer to 0, sets loop, starts playing and shows the first frame. |
| Actors.StopAnimation | examples/nigogame/game/actors.cpp:353 | `stopAnimation` only stops playing. |
| Actors.PlayThenIsPlaying | examples/nigogame/game/actors.cpp:340-357 | After playing a new animation, `isPlaying` holds for that name and no other, and `animationFinished` returns true while it plays. |
| Actors.NextIndex | examples/nigogame/game/actors.cpp:262-283 | On expiry, a looping animation moves to (i+1) mod n. A non-looping one advances while i+1 < n and otherwise stops. |
| Actors.UpdateSprite | examples/nigogame/game/actors.cpp:262-283 | A sprite update runs the actor update. While playing, the elapsed time is added to the timer. If the timer reaches the period, the index and the playing flag become NextIndex's and the timer resets to 0. Otherwise the index and frame stay and the timer keeps the sum. A stopped sprite only runs the actor update. The shown frame follows the index, and playing never restarts by itself. |
| Actors.LoopingSpriteAdvances | examples/nigogame/game/actors.cpp:262-283 | k updates of a looping sprite, each long enough to expire, move the index as LoopSteps does. The sprite keeps playing, the timer is 0 and the shown frame is the index's frame. |
| Actors.LoopingSpriteIndex | examples/nigogame/game/actors.cpp:262-283 | After k such updates, a looping sprite is on index (i+k) mod n. |
| Actors.OnceSpriteStops | examples/nigogame/game/actors.cpp:262-283 | k updates of a non-looping sprite, each long enough to expire, follow OnceSteps. The index is min(i+k, n−1), and playing holds exactly while i+k < n. |
| Actors.OnceStepsClosed | examples/nigogame/game/actors.cpp:262-283 | k non-looping expiries from i give index min(i+k, n−1), and playing holds exactly while i+k < n. |
| Actors.LoopIndexAfter | examples/nigogame/game/actors.cpp:262-283 | k expiries of a looping animation from index i land on (i+k) mod n. |
| Actors.LoopSteps | examples/nigogame/game/actors.cpp:262-283 | Looping expiries keep the index within the animation. |
| Actors.OnceStopsAtLast | examples/nigogame/game/actors.cpp:262-283 | A non-looping animation stops on its last frame after n−i expiries. |
| Actors.OnceSteps | examples/nigogame/game/actors.cpp:262-283 | Non-looping expiries keep the index within the animation. |
| Actors.LoadedAnimations | examples/nigogame/game/actors.cpp:359-384 | Every loaded animation indexes only into the concatenated frames. |
| Actors.LoadAnimations | examples/nigogame/game/actors.cpp:359-384 | `loadAnimations` concatenates all frames in order and defines one animation per sheet name. |
| Actors.LoadedKeys | examples/nigogame/game/actors.cpp:359-384 | The loaded names are exactly the sheet's names. |
| Actors.LoadedFirstWins | examples/nigogame/game/actors.cpp:359-384 | Sheet animation k gets the frame indices [offset_k, offset_k+count_k), where offset_k counts all earlier frames, and frame rate 0. A repeated name keeps its first definition. |
| Actors.LoadedFramesAt | examples/nigogame/game/actors.cpp:359-384 | Those indices point at animation k's own frames in the concatenation. |
| Tilemap.CellInsert | examples/nigogame/game/tilemap.cpp:23-29 | Cell `insert` appends while actorNum+1 ≤ 512. Otherwise the cell is unchanged. |
| Tilemap.CellRemove | examples/nigogame/game/tilemap.cpp:31-41 | Cell `remove` drops one occurrence of the actor. An absent actor leaves the cell unchanged. |
| Tilemap.SwapRemove | examples/nigogame/game/tilemap.cpp:31-41 | Swap-remove shortens the list by one. |
| Tilemap.SwapRemoveSpec | examples/nigogame/game/tilemap.cpp:31-41 | Swap-remove drops exactly the element at i, as a multiset, and keeps the elements before i in place. |
| Tilemap.RemoveLeavesNoCopy | examples/nigogame/game/tilemap.cpp:31-41 | Removing an actor stored once leaves no copy of it in the cell. |
| Tilemap.InsertThenRemove | examples/nigogame/game/tilemap.cpp:23-41 | Insert followed by remove restores the cell's contents. |
| Tilemap.GridInit | examples/nigogame/game/tilemap.cpp:55-72 | Grid `init` builds columns·rows empty cells, with a root of columns·cellWidth by rows·cellHeight. |
| Tilemap.GridCellAt | examples/nigogame/game/tilemap.cpp:55-72 | Cell (r,c) is stored at index r·columns+c, at (x+c·cellWidth, y+r·cellHeight), inside the root. |
| Tilemap.OverlappingCells | examples/nigogame/game/tilemap.cpp:95-109 | The scan lists, in increasing order, exactly the cells that overlap the rect. |
| Tilemap.GetCells | examples/nigogame/game/tilemap.cpp:95-109 | A rect missing the root gives false and no cells. Otherwise the result lists every overlapping cell, and it is true iff the list is non-empty. |
| Tilemap.GetCellsSameLayout | examples/nigogame/game/tilemap.cpp:95-109 | `getCells` depends only on the root and the cell rectangles, not on which actors the cells hold. |
| Tilemap.AtMostFourCells | examples/nigogame/game/tilemap.cpp:95-111 | A rect no larger than a cell overlaps at most four cells, so the callers' 4-slot buffer suffices. |
| Tilemap.CellNearRect | examples/nigogame/game/tilemap.cpp:55-109 | A cell overlapping such a rect is one of the 2×2 cells around the rect's top-left corner. |
| Tilemap.UpdateCells | examples/nigogame/game/tilemap.cpp:110-127 | Exactly the listed cells are updated. |
| Tilemap.GridInsert | examples/nigogame/game/tilemap.cpp:110-118 | Grid `insert` inserts the actor into exactly the cells `getCells` reports. |
| Tilemap.GridRemove | examples/nigogame/game/tilemap.cpp:119-127 | Grid `remove` removes the actor from exactly the cells `getCells` reports. |
| Tilemap.GridInsertThenRemove | examples/nigogame/game/tilemap.cpp:110-127 | Inserting and then removing with the same rect restores every cell's contents. |
| Tilemap.InitTilemap | examples/nigogame/game/tilemap.cpp:134-142 | A new tilemap has no active tiles, uid counter 0 and size 0. |
| Tilemap.AddTile | examples/nigogame/game/tilemap.cpp:297-306 | `addTile` appends an alive tile with life 1 and uid = uidCount++, and inserts it into the grid. The uids stay unique and increasing. |
| Tilemap.AddTiles | examples/nigogame/game/tilemap.cpp:297-306 | Adding several tiles appends them in order with consecutive uids. |
| Tilemap.KillTile | examples/nigogame/game/tilemap.cpp:285-295 | `killTile` is a no-op on a dead tile. Otherwise it removes the tile from the grid and marks it dead. |
| Tilemap.CentreInsideHits | examples/nigogame/game/tilemap.cpp:237-260 | A circle centred inside a tile hits it. |
| Tilemap.ExplodeStep | examples/nigogame/game/tilemap.cpp:240-258 | One tile dies iff it is breakable (alive, id ≥ 2) and the circle hits it. A killed tile is removed from the grid cells under its rect. A miss leaves the whole map unchanged. No other tile changes. |
| Tilemap.ExplodeUpTo | examples/nigogame/game/tilemap.cpp:237-260 | After the first n active tiles, exactly those that are breakable and hit have died, and the result says whether any did. The grid layout is kept. Each cell's contents lose exactly the killed handles filed under that cell. With no hit, the map is unchanged. |
| Tilemap.Exploded | examples/nigogame/game/tilemap.cpp:240-258 | An exploded tile loses only its alive flag, and only when breakable and hit. |
| Tilemap.Explode | examples/nigogame/game/tilemap.cpp:237-260 | `explode` kills exactly the active breakable tiles the circle hits and reports whether it killed any. Walls (id < 2) are never changed. Through `killTile`, each grid cell's contents lose exactly the killed tiles whose rect `getCells` files under that cell. A miss changes nothing, the grid included. |
| Tilemap.TileAtFrom | examples/nigogame/game/tilemap.cpp:262-283 | The scan returns the first breakable active tile hit by a radius-1 circle, or none. |
| Tilemap.GetTileAt | examples/nigogame/game/tilemap.cpp:262-283 | `getTileAt` returns a breakable active tile within radius 1 of the point. It is the first such tile in list order: no earlier tile on the list qualifies. It is null iff there is none. |
| Tilemap.GetTileAtIsExploded | examples/nigogame/game/tilemap.cpp:237-283 | The tile `getTileAt` finds is killed by an explosion of radius 1 at the same point. |
| Tilemap.TopAndBottom | examples/nigogame/game/tilemap.cpp:157-166 | n columns give 2n top and bottom wall tiles. |
| Tilemap.LeftAndRight | examples/nigogame/game/tilemap.cpp:167-176 | n rows give 2n left and right wall tiles. |
| Tilemap.WallsOnBorder | examples/nigogame/game/tilemap.cpp:157-176 | `generate` makes 2(width+1)+2·height walls, all with id 1 and all on the border. |
| Tilemap.InteriorRow | examples/nigogame/game/tilemap.cpp:194-225 | Interior tiles have id 2. |
| Tilemap.Interior | examples/nigogame/game/tilemap.cpp:194-225 | All interior tiles have id 2. |
| Tilemap.MapGrid | examples/nigogame/game/tilemap.cpp:151-152 | The collision grid starts at the origin and covers the whole map. |
| Tilemap.Generate | examples/nigogame/game/tilemap.cpp:148-226 | The map size is the tile counts times 40. The walls come first, alive, with id 1 and on the border, followed by the alive interior tiles with id 2. |
| Tilemap.LaidOut | examples/nigogame/game/tilemap.cpp:148-226 | Adding walls and then interior tiles to an empty map makes them all active and alive in that order: walls first, with id 1 on the border, then the interior tiles with id 2. |
| Tilemap.WallsSurviveExplode | examples/nigogame/game/tilemap.cpp:157-260 | No explosion ever kills a border wall of a generated map. |
| Player.Erase | examples/nigogame/game/player.cpp:432-441 | Erasing removes one occurrence if there is one. Otherwise the list is unchanged. |
| Player.ConservedCounts | examples/nigogame/game/player.cpp:25-72 | Pooled plus active particles always number 128, and an active particle is never also pooled. |
| Player.HandlesOnce | examples/nigogame/game/player.cpp:11-20 | The initial handles name each particle exactly once. |
| Player.InitEmitter | examples/nigogame/game/player.cpp:11-20 | Emitter `init` puts all 128 particles into the pool, with none active. |
| Player.Emit | examples/nigogame/game/player.cpp:57-72 | Emitting n particles moves the top n of the pool to the active list and sets their lifetime to 2. |
| Player.EmitterExplode | examples/nigogame/game/player.cpp:57-72 | `explode` clamps the count to `pool.num` and keeps the 128-particle conservation. |
| Player.Expired | examples/nigogame/game/player.cpp:28-38 | The collected list holds exactly the active particles whose lifetime is below 0. |
| Player.RecycleEach | examples/nigogame/game/player.cpp:39-47 | Recycling the collected particles returns them to the pool and removes them from the active list. |
| Player.RecycleOne | examples/nigogame/game/player.cpp:39-47 | Recycling one particle moves it from active to the pool. |
| Player.Tick | examples/nigogame/game/player.cpp:28-38 | Only active particles age by the elapsed time. |
| Player.EmitterUpdate | examples/nigogame/game/player.cpp:25-48 | `update` ages the active particles and returns to the pool exactly those that drop below 0, preserving pool.num + active = 128. |
| Player.ActiveOnce | examples/nigogame/game/player.cpp:25-72 | No particle is active twice. |
| Player.EmittedSurvivesShortUpdate | examples/nigogame/game/player.cpp:25-72 | A freshly emitted particle is still active after an update of at most 2 seconds. |
| Player.InitBombs | examples/nigogame/game/player.cpp:123-130 | Player `init` places all 32 bombs in `recycledBombs`. |
| Player.SpawnBomb | examples/nigogame/game/player.cpp:155-167 | `spawnBomb` acts iff `recycledBombs` is non-empty and bombTimer ≤ 0. It moves the last recycled bomb to `bombs` and sets the timer to 6. |
| Player.SpawnTwiceThrowsOnce | examples/nigogame/game/player.cpp:155-167 | A second spawn right after a successful one does nothing. |
| Player.RecycleBomb | examples/nigogame/game/player.cpp:432-441 | `recycle` erases the bomb from `bombs` if present and always appends it to `recycledBombs`. |
| Player.RecycleUndoesSpawn | examples/nigogame/game/player.cpp:155-441 | Recycling the spawned bomb restores the recycled list and the set of live bombs. |
| Player.RecycleIdleBombDuplicates | examples/nigogame/game/player.cpp:432-441 | Recycling a bomb that is not live duplicates it, because the append is unconditional. |
| Player.HandlesOnceBombs | examples/nigogame/game/player.cpp:123-130 | The initial bombs are all distinct. |
| Scenes.CreateImage | examples/nigogame/game/game.cpp:18-28 | Creating an image gives a fresh id that was not alive. |
| Scenes.AddImage | examples/nigogame/game/game.cpp:18-28 | A cached name returns its image and creates nothing. A new name creates a fresh image and caches it. |
| Scenes.GetImage | examples/nigogame/game/game.cpp:30-36 | `getImage` returns the cached image, and null exactly for unknown names. |
| Scenes.AddImageThenGet | examples/nigogame/game/game.cpp:18-36 | After adding, the name resolves to the image, and adding it again changes nothing. |
| Scenes.DestroyScene | examples/nigogame/game/game.cpp:11-16 | Scene `destroy` destroys exactly the cached images and empties the cache. |
| Scenes.DestroyForgetsImages | examples/nigogame/game/game.cpp:11-36 | After `destroy` no name resolves and none of the scene's images is alive. |
| Scenes.WithScene | examples/nigogame/game/game.cpp:77-98 | Replacing one scene leaves the other scene and the game state alone. |
| Scenes.InitGame | examples/nigogame/game/game.cpp:38-55 | The game starts with no scene and the main menu requested. |
| Scenes.SwitchScene | examples/nigogame/game/game.cpp:149 | `switchScene` only records `nextState`. |
| Scenes.LeaveScene | examples/nigogame/game/game.cpp:78-81 | Leaving runs the current scene's virtual `destroy` and detaches it. Without a scene nothing changes. Leaving the main menu only detaches it, because `NcMainMenuScene::destroy` is empty (main_menu_scene.cpp line 11). Its cache and images are kept. Leaving the game scene runs the base `NcScene::destroy` (game_scene.cpp line 34). The game scene's cache is emptied, and exactly its images stop being alive. |
| Scenes.EnterScene | examples/nigogame/game/game.cpp:86-97 | Entering keeps the state and the current scene pointer. |
| Scenes.UpdateScenes | examples/nigogame/game/game.cpp:77-98 | When another state is requested, the old scene is detached. Leaving the game scene destroys its images and empties its cache. Leaving the main menu keeps its cache and every image alive. The requested scene becomes current (none for NONE) and is attached and initialised once. Without a request nothing changes. |
| Scenes.UpdateScenesIdempotent | examples/nigogame/game/game.cpp:77-98 | A second update with no new request changes nothing. |
| Scenes.SwitchThenUpdate | examples/nigogame/game/game.cpp:77-149 | Requesting a state and updating makes it current. Requesting the current state changes nothing. |
| Scenes.MenuGameMenu | examples/nigogame/game/game.cpp:77-149 | Going from the menu to the game and back re-initialises the menu once more. The menu's cached images survive the round trip, both in its cache and as live images. The game scene's cache is left empty. |

## Left out

- Integer widths: `size_t` values are `nat` below 2^64 where overflow matters (the bit utilities). The 32-bit counters elsewhere are unbounded: the tilemap `uidCount`, the grid size products, the descriptor allocator's `allocated` and `imageNum`. Their wrap-around is not modelled.
- Floating point: `float` is `real`, so rounding is not modelled. `cosf`/`sinf` are replaced by a (cos, sin) pair passed to `rotate`. `drawLine` is not modelled, because it thickens lines with `sqrtf`. `NK_COLOR_RGBA_FLOAT` and the float `abs` bit trick are left out.
- GPU plumbing: device, swap-chain, pipeline and root-signature creation, command recording, barriers, texture copies and the pixel `memcpy`. The backend keeps only its bookkeeping. The fence waits become the per-slot counters of `FrameClock`, and the wait is assumed to return.
- The WebGPU and WebGL backends: their atlas-bit helpers mirror the D3D12 ones, and the WebGL stubs return null.
- Windowing and event pumps: the OS event loops only supply the event lists that `Hid.WasmUpdate` and `Hid.WindowsUpdate` fold. The Windows `update` also calls `TranslateMessage` on every WM_KEYDOWN (src/backend/windows/windows_hid.cpp:35). That posts a WM_CHAR message to the thread's queue, and the character reaches `lastChar` only when the pump removes that message. `Hid.WindowsUpdate` takes the message list as a parameter, so a caller that wants this effect must put the WM_CHAR in the list itself.
- Hid.ShowCursor: the OS cursor call is left out, and only the recorded visibility is modelled.
- Memory hooks: allocation is total, so the null-return branches of `memRealloc`, including the one in `NkImageArray::add`, are left out.
- TempStrings.TempString: requires the formatted text to fit in 4096 bytes. The formatting by `vsprintf_s` is not modelled; the formatted text is a parameter. `vsprintf_s` does not truncate: on overflow it calls the invalid-parameter handler (src/backend/windows/windows_utils.cpp:20,35), and the requires leaves that case out.
- Bin2C: file reading and writing and the error prints are left out. Paths use both `/` and `\` as separators (the Windows `os.path` flavour). `upper()` is modelled on ASCII only.
- Bin2C.Basename: only the "X:" drive prefix is split off. A UNC prefix (`\\server\share`) is not treated as a drive, so a bare UNC share yields its share name instead of an empty name.
- Tilemap.Generate: the random cave holes are a parameter (a list of circles), not `rand()`.
- Tilemap.AtMostFourCells: proved only for rects no larger than one cell. These are the rects the game stores in the grid.
- Tilemap.CellInsert: the failing `assert(0)` on a full cell is read as a no-op, as in a release build.
- The tile allocator's capacity of 1<<18 is not modelled. Tiles are appended to an unbounded list.
- Gameplay physics: `separateX`/`separateY`, `NcActor::collide`, `NcRect::collide` and the grid's `collide` are float physics and are left out. So are particle and bomb motion and rendering.
- NcPlayer::update: its input handling, and its own calls to `recycle` for exploded bombs, are gameplay and are out of scope. `Player.RecycleBomb` models `recycle` itself.
- Scenes.EnterScene: the scene `init` bodies (image loading, tilemap generation, menu layout) are gameplay. They are reduced to attaching the scene and counting initialisations. The timing and rendering parts of `NcGame::update` are left out.
- Actors.LoadAnimations: requires that no animation is current. The source leaves a stale current-animation pointer into the replaced animation table, which the model does not represent.
- ObjectAllocator.Init: the node block comes from `malloc` and its links are uninitialised. The model reads them as null.
- The demo programs, the release script and the declaration-only headers contribute only constants.

## Findings

| source | as written | input that shows it | evidently intended | confidence | as-written member | corrected member |
|---|---|---|---|---|---|---|
| examples/nigogame/game/memory.h:45-51 | `free` treats a node as "not on the free list" when its `next` link is null. That also holds for the tail of the free list, and `allocate` never clears the link of a node it pops. | (1) `allocate` on a 1-node allocator returns node 0. Freeing node 0 twice then links it to itself, and every later `allocate` returns node 0. (2) On a 2-node allocator, allocate both and free 0 then 1. Allocating returns 1, and a `free` of 1 is then ignored because its link still points at 0, so node 1 is lost. | A double free is ignored, and a node popped from the free list can be freed again. | not executed | ObjectAllocator.DoubleFreeMakesCycle, ObjectAllocator.StaleLinkLeaksNode | ObjectAllocator.SafeFreeIgnoresDoubleFree, ObjectAllocator.SafeReuseAfterPop |
