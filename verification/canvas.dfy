/**
 * The backend-agnostic batching core of the canvas (NkCanvasBase): per-frame
 * vertex-buffer pools and draw-batch lists, the `pushQuad` batching rule,
 * frame begin/end, and quad construction in `drawImage`/`drawRect`.
 *
 * Draw calls are modelled between `beginFrame` and `endFrame`, the only place
 * the canvas API issues them; `inFrame` records which side of that pair the
 * canvas is on. `currDrawBatch` always points at the newest batch of the
 * current frame's list, so it is read off the list instead of being stored.
 */
module Canvas {
  import opened Wrappers
  import opened CanvasLimits
  import opened CanvasMatrix
  import opened Images
  import FrameClock
  import TextureAtlas
  import BindlessTable

  datatype Vertex = Vertex(pos: Point, uv: Point, color: bv32, textureId: nat)

  /** A vertex buffer; its `vertexCount` is the number of vertices written this frame. */
  datatype VertexBuffer = VertexBuffer(vertices: seq<Vertex>) {
    function Count(): nat { |vertices| }
  }

  /**
   * NkCanvasVertexBufferAllocator: `buffers` are the slots that ever received
   * storage (`vertexBufferMax` of them, the high-water mark); `num` is
   * `vertexBufferNum`, the slots handed out this frame.
   */
  datatype VertexPool = VertexPool(buffers: seq<VertexBuffer>, num: nat) {
    predicate Valid() {
      num <= |buffers| <= MaxVertexBuffers
      && forall b :: 0 <= b < |buffers| ==> buffers[b].Count() <= MaxVertsPerBuffer
    }
  }

  function InitPool(): (p: VertexPool)
    ensures p.Valid() && p.num == 0 && p.buffers == []
  {
    VertexPool([], 0)
  }

  /** `reset`: only `vertexBufferNum` goes back to 0; storage and the high-water mark stay. */
  function ResetPool(p: VertexPool): (r: VertexPool)
    requires p.Valid()
    ensures r.Valid() && r.num == 0 && r.buffers == p.buffers
  {
    p.(num := 0)
  }

  /**
   * `allocate`: hands out slot `vertexBufferNum` with no vertices; storage is
   * created only for a slot that was never used, and the high-water mark follows.
   */
  function Allocate(p: VertexPool): (r: VertexPool)
    requires p.Valid() && p.num + 1 < MaxVertexBuffers
    ensures r.Valid() && r.num == p.num + 1 && r.buffers[p.num].vertices == []
    ensures |r.buffers| == if p.num < |p.buffers| then |p.buffers| else p.num + 1
    ensures forall b :: 0 <= b < |r.buffers| && b != p.num ==> r.buffers[b] == p.buffers[b]
  {
    if p.num < |p.buffers| then VertexPool(p.buffers[p.num := VertexBuffer([])], p.num + 1)
    else VertexPool(p.buffers + [VertexBuffer([])], p.num + 1)
  }

  /** k `allocate` calls in a row. */
  function AllocateMany(p: VertexPool, k: nat): (r: VertexPool)
    requires p.Valid() && p.num + k < MaxVertexBuffers
    ensures r.Valid() && r.num == p.num + k
  {
    if k == 0 then p else Allocate(AllocateMany(p, k - 1))
  }

  /**
   * After a `reset`, k allocations hand out slots 0 to k - 1 empty, keep the
   * slots above them as they were, and create storage only past the
   * high-water mark: the pool ends with max(high-water mark, k) slots.
   */
  lemma {:induction false} ResetThenAllocate(p: VertexPool, k: nat)
    requires p.Valid() && k < MaxVertexBuffers
    ensures var r := AllocateMany(ResetPool(p), k);
      r.num == k && |r.buffers| == (if k <= |p.buffers| then |p.buffers| else k)
      && (forall b :: 0 <= b < k ==> r.buffers[b].vertices == [])
      && forall b :: k <= b < |p.buffers| ==> r.buffers[b] == p.buffers[b]
  {
    if k > 0 {
      ResetThenAllocate(p, k - 1);
    }
  }

  /**
   * NkCanvasDrawBatchInternal: `count` indices starting at vertex `offset` of
   * vertex buffer number `buffer`.
   */
  datatype DrawBatch = DrawBatch(image: Image, buffer: nat, offset: nat, count: nat)

  /** One past the last vertex the batch draws. */
  function End(b: DrawBatch): nat { b.offset + b.count / IndicesPerQuad * VerticesPerQuad }

  /** `last`: the newest batch, or none on an empty list. */
  function Last(bl: seq<DrawBatch>): (r: Option<DrawBatch>)
    ensures r.None? <==> bl == []
    ensures r.Some? ==> r.value == bl[|bl| - 1]
  {
    if bl == [] then None else Some(bl[|bl| - 1])
  }

  /** `add`: appends; the list holds fewer than NK_CANVAS_MAX_BATCHES - 1 batches before. */
  function AddBatch(bl: seq<DrawBatch>, b: DrawBatch): (r: seq<DrawBatch>)
    requires |bl| + 1 < MaxBatches
    ensures |r| == |bl| + 1 && r[..|bl|] == bl && Last(r) == Some(b)
  {
    bl + [b]
  }

  /** The build switches NK_CANVAS_TEXTURE_ATLAS_ENABLED and NK_CANVAS_BINDLESS_RESOURCE_ENABLED. */
  datatype Config = Config(atlasEnabled: bool, bindlessEnabled: bool) {
    /** Only without both modes does a different image need a batch of its own. */
    predicate SplitsOnImageChange() { !atlasEnabled && !bindlessEnabled }
  }

  datatype Canvas = Canvas(
    config: Config,
    width: real, height: real,
    clock: FrameClock.Clock,
    pools: seq<VertexPool>,
    batches: seq<seq<DrawBatch>>,
    currBuffer: Option<nat>,
    inFrame: bool,
    stack: MatrixStack,
    atlas: TextureAtlas.Atlas,
    resident: map<ImageId, TextureAtlas.Rect>,
    table: BindlessTable.Table,
    whiteImage: Option<Image>)

  /** The current slot's pool and batch list together with `currVertexBuffer`. */
  datatype Frame = Frame(pool: VertexPool, batches: seq<DrawBatch>, cur: Option<nat>)

  /** The batch lies in a buffer handed out this frame, draws whole quads, and they are all written. */
  predicate Placed(b: DrawBatch, pool: VertexPool)
    requires pool.Valid()
  {
    b.buffer < pool.num && b.count % IndicesPerQuad == 0 && End(b) <= pool.buffers[b.buffer].Count()
  }

  /**
   * `next` starts where `prev` ends: in the same buffer, or at the start of the
   * following buffer once `prev` has drawn its buffer to the end.
   */
  predicate Follows(prev: DrawBatch, next: DrawBatch, pool: VertexPool)
    requires pool.Valid()
  {
    (next.buffer == prev.buffer && next.offset == End(prev))
    || (next.buffer == prev.buffer + 1 && next.offset == 0
        && prev.buffer < |pool.buffers| && End(prev) == pool.buffers[prev.buffer].Count())
  }

  /**
   * The batches tile every vertex written this frame, in order: the first starts
   * at vertex 0 of buffer 0, each starts where the previous ended, and the newest
   * ends at the current buffer's `vertexCount`. Only the newest may still be empty.
   */
  ghost predicate ShapeCore(f: Frame)
  {
    var bl := f.batches;
    f.pool.Valid()
    && (f.cur.None? ==> bl == [] && f.pool.num == 0)
    && (f.cur.Some? ==> f.pool.num >= 1 && f.cur.value == f.pool.num - 1)
    && (f.cur.Some? && bl == [] ==> f.cur.value == 0 && f.pool.buffers[0].Count() == 0)
    && (f.cur.Some? && bl != [] ==>
          bl[0].buffer == 0 && bl[0].offset == 0
          && bl[|bl| - 1].buffer == f.cur.value && End(bl[|bl| - 1]) == f.pool.buffers[f.cur.value].Count())
    && (forall k :: 0 <= k < |bl| ==> Placed(bl[k], f.pool))
    && (forall k :: 0 <= k < |bl| - 1 ==> bl[k].count >= IndicesPerQuad)
    && (forall k :: 0 < k < |bl| ==> Follows(bl[k - 1], bl[k], f.pool))
  }

  /** Between draw calls no batch is empty. */
  ghost predicate FrameShape(f: Frame)
  {
    ShapeCore(f) && (f.cur.Some? ==> f.batches != [])
    && (f.batches != [] ==> f.batches[|f.batches| - 1].count >= IndicesPerQuad)
  }

  ghost predicate Valid(c: Canvas)
  {
    c.clock.Valid() && |c.pools| == MaxFrames && |c.batches| == MaxFrames
    && (forall s :: 0 <= s < MaxFrames ==> c.pools[s].Valid())
    && c.stack.Valid()
    && c.atlas.Valid() && c.atlas.width == TextureAtlas.AtlasWidth && c.atlas.height == TextureAtlas.AtlasHeight
    && c.table.Valid()
    && (c.inFrame ==> FrameShape(CurrentFrame(c)))
    && (!c.inFrame ==> c.currBuffer.None?)
  }

  function CurrentFrame(c: Canvas): Frame
    requires c.clock.Valid() && |c.pools| == MaxFrames && |c.batches| == MaxFrames
  {
    Frame(c.pools[c.clock.slot], c.batches[c.clock.slot], c.currBuffer)
  }

  function Pool(c: Canvas): VertexPool
    requires Valid(c)
  {
    c.pools[c.clock.slot]
  }

  function Batches(c: Canvas): seq<DrawBatch>
    requires Valid(c)
  {
    c.batches[c.clock.slot]
  }

  /** `init`: frame 1 in slot 0, empty pools and batch lists, no current buffer, identity matrix. */
  function Init(config: Config, width: real, height: real): (c: Canvas)
    ensures Valid(c) && !c.inFrame && c.config == config
    ensures c.clock.currentFrame == 1 && c.clock.slot == 0
    ensures c.currBuffer == None && c.whiteImage == None && c.stack.current == Identity()
    ensures forall s :: 0 <= s < MaxFrames ==> c.pools[s].num == 0 && c.batches[s] == []
  {
    Canvas(config, width, height, FrameClock.Init(), [InitPool(), InitPool()], [[], []], None, false,
           InitStack(), TextureAtlas.Init(TextureAtlas.AtlasWidth, TextureAtlas.AtlasHeight), map[],
           BindlessTable.Empty(), None)
  }

  /** `pushQuad` must allocate a vertex buffer: there is none yet, or the quad would overflow it. */
  predicate NeedsBuffer(f: Frame)
    requires f.pool.Valid() && (f.cur.Some? ==> f.cur.value < |f.pool.buffers|)
  {
    f.cur.None? || f.pool.buffers[f.cur.value].Count() + VerticesPerQuad > MaxVertsPerBuffer
  }

  /** `pushQuad` opens a batch: after an overflow, on an empty list, or on an image change that splits. */
  predicate OpensBatch(f: Frame, img: Image, splits: bool)
    requires f.pool.Valid() && (f.cur.Some? ==> f.cur.value < |f.pool.buffers|)
  {
    (NeedsBuffer(f) && f.cur.Some?)
    || f.batches == []
    || (splits && f.batches[|f.batches| - 1].image != img)
  }

  /** The capacity assertions `pushQuad` can reach, as preconditions. */
  predicate CanPush(c: Canvas, img: Image)
    requires Valid(c) && c.inFrame
  {
    var f := CurrentFrame(c);
    (NeedsBuffer(f) ==> f.pool.num + 1 < MaxVertexBuffers)
    && (OpensBatch(f, img, c.config.SplitsOnImageChange()) ==> |f.batches| + 1 < MaxBatches)
    && (c.config.bindlessEnabled && img.id !in c.table.ids ==> |c.table.images| < BindlessTable.MaxBoundImages)
  }

  /**
   * First step of `pushQuad`: with no current buffer, or one the quad would
   * overflow, a fresh buffer is allocated; if a buffer was in use a batch
   * starting at vertex 0 of the fresh buffer is opened.
   */
  function EnsureBuffer(f: Frame, img: Image): (r: Frame)
    requires FrameShape(f) && (NeedsBuffer(f) ==> f.pool.num + 1 < MaxVertexBuffers)
    requires NeedsBuffer(f) && f.cur.Some? ==> |f.batches| + 1 < MaxBatches
    ensures r.pool.Valid() && r.cur.Some? && r.cur.value < |r.pool.buffers|
    ensures r.pool.buffers[r.cur.value].Count() + VerticesPerQuad <= MaxVertsPerBuffer
    ensures !NeedsBuffer(f) ==> r == f
    ensures NeedsBuffer(f) ==> r.cur == Some(f.pool.num) && r.pool.buffers[f.pool.num].Count() == 0
    ensures NeedsBuffer(f) && f.cur.Some? ==> r.batches == f.batches + [DrawBatch(img, f.pool.num, 0, 0)]
    ensures NeedsBuffer(f) && f.cur.None? ==> r.batches == []
    ensures r.batches != [] && r.batches[|r.batches| - 1].count == 0 ==> r.batches[|r.batches| - 1].image == img
  {
    if !NeedsBuffer(f) then f
    else
      var pool := Allocate(f.pool);
      var cur := f.pool.num;
      if f.cur.None? then Frame(pool, f.batches, Some(cur))
      else
        Frame(pool, AddBatch(f.batches, DrawBatch(img, cur, 0, 0)), Some(cur))
  }

  /**
   * Second step of `pushQuad`: a batch starting at the current buffer's
   * `vertexCount` is opened when the list is empty or, when image changes split
   * batches, the newest batch has another image.
   */
  function EnsureBatch(f: Frame, img: Image, splits: bool): (r: Frame)
    requires f.pool.Valid() && f.cur.Some? && f.cur.value < |f.pool.buffers|
    requires (f.batches == [] || (splits && f.batches[|f.batches| - 1].image != img)) ==> |f.batches| + 1 < MaxBatches
    ensures r.pool == f.pool && r.cur == f.cur && r.batches != []
    ensures r.batches[|r.batches| - 1].image == img || (!splits && r.batches == f.batches)
    ensures f.batches == [] || (splits && f.batches[|f.batches| - 1].image != img) ==>
              r.batches == f.batches + [DrawBatch(img, f.cur.value, f.pool.buffers[f.cur.value].Count(), 0)]
    ensures !(f.batches == [] || (splits && f.batches[|f.batches| - 1].image != img)) ==> r == f
  {
    var bl := f.batches;
    if bl == [] || (splits && bl[|bl| - 1].image != img) then
      f.(batches := AddBatch(bl, DrawBatch(img, f.cur.value, f.pool.buffers[f.cur.value].Count(), 0)))
    else f
  }

  /**
   * Last step of `pushQuad` (`allocVertices` and the count update): the four
   * vertices are appended to the current buffer and the newest batch grows by six indices.
   */
  function WriteQuad(f: Frame, written: seq<Vertex>): (r: Frame)
    requires f.pool.Valid() && f.cur.Some? && f.cur.value < |f.pool.buffers| && f.batches != [] && |written| == VerticesPerQuad
    requires f.pool.buffers[f.cur.value].Count() + VerticesPerQuad <= MaxVertsPerBuffer
    ensures r.pool.Valid() && r.cur == f.cur && r.pool.num == f.pool.num
    ensures |r.batches| == |f.batches| && r.batches[..|f.batches| - 1] == f.batches[..|f.batches| - 1]
    ensures r.batches[|r.batches| - 1] == f.batches[|f.batches| - 1].(count := f.batches[|f.batches| - 1].count + IndicesPerQuad)
    ensures |r.pool.buffers| == |f.pool.buffers|
    ensures r.pool.buffers[f.cur.value].vertices == f.pool.buffers[f.cur.value].vertices + written
    ensures forall b :: 0 <= b < |f.pool.buffers| && b != f.cur.value ==> r.pool.buffers[b] == f.pool.buffers[b]
  {
    var cur := f.cur.value;
    var pool := f.pool.(buffers := f.pool.buffers[cur := VertexBuffer(f.pool.buffers[cur].vertices + written)]);
    var bl := f.batches;
    var newest := bl[|bl| - 1];
    Frame(pool, bl[|bl| - 1 := newest.(count := newest.count + IndicesPerQuad)], f.cur)
  }

  /** The quad as written: positions through the current matrix, and the texture id in bindless mode. */
  function PlaceQuad(m: Matrix, quad: seq<Vertex>, bindless: bool, tid: nat): (r: seq<Vertex>)
    ensures |r| == |quad|
    ensures forall i :: 0 <= i < |quad| ==>
              r[i] == quad[i].(pos := Multiply(m, quad[i].pos), textureId := if bindless then tid else quad[i].textureId)
  {
    seq(|quad|, i requires 0 <= i < |quad| =>
      quad[i].(pos := Multiply(m, quad[i].pos), textureId := if bindless then tid else quad[i].textureId))
  }

  /**
   * `pushQuad`: allocate a buffer when needed, open a batch when needed, then
   * write the transformed vertices (with the texture id in bindless mode) and
   * grow the newest batch. Only the current slot and the bindless table change.
   */
  function PushQuad(c: Canvas, quad: seq<Vertex>, img: Image): (r: Canvas)
    requires Valid(c) && c.inFrame && |quad| == VerticesPerQuad && CanPush(c, img)
    ensures Valid(r) && r.inFrame && r.currBuffer.Some?
    ensures r.config == c.config && r.clock == c.clock && r.stack == c.stack
    ensures r.atlas == c.atlas && r.resident == c.resident && r.whiteImage == c.whiteImage
    ensures forall s :: 0 <= s < MaxFrames && s != c.clock.slot ==> r.pools[s] == c.pools[s] && r.batches[s] == c.batches[s]
    ensures !c.config.bindlessEnabled ==> r.table == c.table
  {
    var bound := if c.config.bindlessEnabled then BindlessTable.AddImage(c.table, img.id) else (c.table, 0);
    var written := PlaceQuad(c.stack.current, quad, c.config.bindlessEnabled, bound.1);
    WithFrame(c, PushFrame(CurrentFrame(c), written, img, c.config.SplitsOnImageChange()), bound.0)
  }

  /** The frame half of `pushQuad`: buffer, batch, then the vertices; the tiling survives. */
  function PushFrame(f: Frame, written: seq<Vertex>, img: Image, splits: bool): (r: Frame)
    requires FrameShape(f) && |written| == VerticesPerQuad
    requires NeedsBuffer(f) ==> f.pool.num + 1 < MaxVertexBuffers
    requires OpensBatch(f, img, splits) ==> |f.batches| + 1 < MaxBatches
    ensures FrameShape(r)
  {
    var f1 := EnsureBuffer(f, img);
    EnsureBufferShape(f, img);
    OpensAtMostOneBatch(f, img, splits);
    var f2 := EnsureBatch(f1, img, splits);
    EnsureBatchShape(f1, img, splits);
    var f3 := WriteQuad(f2, written);
    WriteQuadShape(f2, written);
    f3
  }

  /** The canvas with the current slot's frame and the bindless table replaced. */
  function WithFrame(c: Canvas, f: Frame, table: BindlessTable.Table): (r: Canvas)
    requires Valid(c) && c.inFrame && FrameShape(f) && table.Valid()
    ensures Valid(r) && r.inFrame && CurrentFrame(r) == f && r.table == table
    ensures r.config == c.config && r.clock == c.clock && r.stack == c.stack
    ensures r.atlas == c.atlas && r.resident == c.resident && r.whiteImage == c.whiteImage
    ensures forall s :: 0 <= s < MaxFrames && s != c.clock.slot ==> r.pools[s] == c.pools[s] && r.batches[s] == c.batches[s]
  {
    var s := c.clock.slot;
    c.(pools := c.pools[s := f.pool], batches := c.batches[s := f.batches], currBuffer := f.cur, table := table)
  }

  /** Allocating a buffer (and opening a batch after an overflow) leaves the tiling intact. */
  lemma EnsureBufferShape(f: Frame, img: Image)
    requires FrameShape(f) && (NeedsBuffer(f) ==> f.pool.num + 1 < MaxVertexBuffers)
    requires NeedsBuffer(f) && f.cur.Some? ==> |f.batches| + 1 < MaxBatches
    ensures ShapeCore(EnsureBuffer(f, img))
  {
    var r := EnsureBuffer(f, img);
    if NeedsBuffer(f) && f.cur.Some? {
      var bl := f.batches;
      var n := |bl|;
      assert r.batches[..n] == bl;
      forall k | 0 <= k < |r.batches| ensures Placed(r.batches[k], r.pool) {
        if k < n {
          assert r.batches[k] == bl[k];
          assert Placed(bl[k], f.pool);
        }
      }
      forall k | 0 <= k < |r.batches| - 1 ensures r.batches[k].count >= IndicesPerQuad {
        assert r.batches[k] == bl[k];
      }
      forall k | 0 < k < |r.batches| ensures Follows(r.batches[k - 1], r.batches[k], r.pool) {
        if k < n {
          assert r.batches[k - 1] == bl[k - 1] && r.batches[k] == bl[k];
          assert Follows(bl[k - 1], bl[k], f.pool);
          assert bl[k - 1].buffer < f.pool.num && Placed(bl[k - 1], f.pool);
        } else {
          assert r.batches[k - 1] == bl[n - 1];
        }
      }
    }
  }

  /** Opening a batch at the current buffer's end leaves the tiling intact. */
  lemma EnsureBatchShape(f: Frame, img: Image, splits: bool)
    requires ShapeCore(f) && f.cur.Some? && f.cur.value < |f.pool.buffers|
    requires f.batches != [] && f.batches[|f.batches| - 1].count == 0 ==> f.batches[|f.batches| - 1].image == img
    requires (f.batches == [] || (splits && f.batches[|f.batches| - 1].image != img)) ==> |f.batches| + 1 < MaxBatches
    ensures ShapeCore(EnsureBatch(f, img, splits))
  {
    var bl := f.batches;
    if bl == [] {
      assert EnsureBatch(f, img, splits).batches == [DrawBatch(img, 0, 0, 0)];
    } else if splits && bl[|bl| - 1].image != img {
      OpenBatchShape(f, img);
    }
  }

  /** A batch appended at the end of the current buffer, after a non-empty one, keeps the tiling. */
  lemma OpenBatchShape(f: Frame, img: Image)
    requires ShapeCore(f) && f.cur.Some? && f.cur.value < |f.pool.buffers| && f.batches != []
    requires f.batches[|f.batches| - 1].count >= IndicesPerQuad
    ensures ShapeCore(Frame(f.pool, f.batches + [DrawBatch(img, f.cur.value, f.pool.buffers[f.cur.value].Count(), 0)], f.cur))
  {
    var bl := f.batches;
    var n := |bl|;
    var nb := bl + [DrawBatch(img, f.cur.value, f.pool.buffers[f.cur.value].Count(), 0)];
    forall k | 0 <= k < |nb| ensures Placed(nb[k], f.pool) {
      if k < n {
        assert nb[k] == bl[k];
      }
    }
    forall k | 0 <= k < |nb| - 1 ensures nb[k].count >= IndicesPerQuad {
      assert nb[k] == bl[k];
    }
    forall k | 0 < k < |nb| ensures Follows(nb[k - 1], nb[k], f.pool) {
      assert nb[k - 1] == bl[k - 1];
      if k < n {
        assert nb[k] == bl[k];
      }
    }
  }

  /** Writing the quad completes the newest batch, so no batch is left empty. */
  lemma WriteQuadShape(f: Frame, written: seq<Vertex>)
    requires ShapeCore(f) && f.cur.Some? && f.batches != [] && |written| == VerticesPerQuad
    requires f.pool.buffers[f.cur.value].Count() + VerticesPerQuad <= MaxVertsPerBuffer
    ensures FrameShape(WriteQuad(f, written))
  {
    var r := WriteQuad(f, written);
    var bl := f.batches;
    var n := |bl|;
    var cur := f.cur.value;
    assert r.pool.buffers[cur].Count() == f.pool.buffers[cur].Count() + VerticesPerQuad;
    assert End(r.batches[n - 1]) == End(bl[n - 1]) + VerticesPerQuad;
    forall k | 0 <= k < n ensures Placed(r.batches[k], r.pool) {
      assert Placed(bl[k], f.pool);
      if k < n - 1 {
        assert r.batches[k] == bl[k];
      }
    }
    forall k | 0 <= k < n - 1 ensures r.batches[k].count >= IndicesPerQuad {
      assert r.batches[k] == bl[k];
    }
    forall k | 0 < k < n ensures Follows(r.batches[k - 1], r.batches[k], r.pool) {
      assert r.batches[k - 1] == bl[k - 1];
      assert Follows(bl[k - 1], bl[k], f.pool);
      assert Placed(bl[k - 1], f.pool);
    }
  }

  /**
   * A batch opened for a fresh buffer already carries the quad's image, so
   * `pushQuad` opens at most one batch, and only when `OpensBatch` says so.
   */
  lemma OpensAtMostOneBatch(f: Frame, img: Image, splits: bool)
    requires FrameShape(f) && (NeedsBuffer(f) ==> f.pool.num + 1 < MaxVertexBuffers)
    requires NeedsBuffer(f) && f.cur.Some? ==> |f.batches| + 1 < MaxBatches
    ensures var f1 := EnsureBuffer(f, img);
      (f1.batches == [] || (splits && f1.batches[|f1.batches| - 1].image != img)) ==>
        OpensBatch(f, img, splits) && f1.batches == f.batches
  {
  }

  /** The four vertices most recently written to the current buffer. */
  function LastQuad(c: Canvas): seq<Vertex>
    requires Valid(c) && c.inFrame && c.currBuffer.Some?
  {
    var vs := Pool(c).buffers[c.currBuffer.value].vertices;
    if |vs| >= VerticesPerQuad then vs[|vs| - VerticesPerQuad..] else []
  }

  /** A quad that fits the current buffer and needs no new batch grows the newest batch by 6 indices and the buffer by 4 vertices. */
  lemma PushQuadExtendsBatch(c: Canvas, quad: seq<Vertex>, img: Image)
    requires Valid(c) && c.inFrame && |quad| == VerticesPerQuad && CanPush(c, img)
    requires !NeedsBuffer(CurrentFrame(c)) && Batches(c) != []
    requires !c.config.SplitsOnImageChange() || Batches(c)[|Batches(c)| - 1].image == img
    ensures var r := PushQuad(c, quad, img); var bl := Batches(c); var n := |bl|;
      r.currBuffer == c.currBuffer
      && |Batches(r)| == n && Batches(r)[..n - 1] == bl[..n - 1]
      && Batches(r)[n - 1] == bl[n - 1].(count := bl[n - 1].count + IndicesPerQuad)
      && Pool(r).buffers[c.currBuffer.value].Count() == Pool(c).buffers[c.currBuffer.value].Count() + VerticesPerQuad
  {
  }

  /** Without atlas or bindless mode, a different image opens a batch at the pre-write `vertexCount` holding just this quad. */
  lemma PushQuadSplitsOnImage(c: Canvas, quad: seq<Vertex>, img: Image)
    requires Valid(c) && c.inFrame && |quad| == VerticesPerQuad && CanPush(c, img)
    requires !NeedsBuffer(CurrentFrame(c)) && Batches(c) != []
    requires c.config.SplitsOnImageChange() && Batches(c)[|Batches(c)| - 1].image != img
    ensures var r := PushQuad(c, quad, img); var bl := Batches(c); var n := |bl|; var cur := c.currBuffer.value;
      r.currBuffer == c.currBuffer
      && |Batches(r)| == n + 1 && Batches(r)[..n] == bl
      && Batches(r)[n] == DrawBatch(img, cur, Pool(c).buffers[cur].Count(), IndicesPerQuad)
  {
  }

  /**
   * A quad that would overflow the current buffer moves to a fresh buffer and
   * opens a batch at its vertex 0, even for the same image.
   */
  lemma PushQuadSplitsOnOverflow(c: Canvas, quad: seq<Vertex>, img: Image)
    requires Valid(c) && c.inFrame && |quad| == VerticesPerQuad && CanPush(c, img)
    requires c.currBuffer.Some? && Pool(c).buffers[c.currBuffer.value].Count() + VerticesPerQuad > MaxVertsPerBuffer
    ensures var r := PushQuad(c, quad, img); var bl := Batches(c); var n := |bl|; var next := c.currBuffer.value + 1;
      r.currBuffer == Some(next) && Pool(r).num == Pool(c).num + 1
      && |Batches(r)| == n + 1 && Batches(r)[..n] == bl
      && Batches(r)[n] == DrawBatch(img, next, 0, IndicesPerQuad)
      && Pool(r).buffers[next].Count() == VerticesPerQuad
  {
  }

  /** The four vertices written are the quad with its positions mapped by the current matrix. */
  lemma PushQuadWrites(c: Canvas, quad: seq<Vertex>, img: Image)
    requires Valid(c) && c.inFrame && |quad| == VerticesPerQuad && CanPush(c, img)
    ensures var q := LastQuad(PushQuad(c, quad, img));
      |q| == VerticesPerQuad
      && forall i :: 0 <= i < VerticesPerQuad ==>
           q[i].pos == Multiply(c.stack.current, quad[i].pos) && q[i].uv == quad[i].uv && q[i].color == quad[i].color
  {
    var r := PushQuad(c, quad, img);
    var vs := Pool(r).buffers[r.currBuffer.value].vertices;
    assert vs[|vs| - VerticesPerQuad..] == PlaceQuad(c.stack.current, quad, c.config.bindlessEnabled,
      if c.config.bindlessEnabled then BindlessTable.AddImage(c.table, img.id).1 else 0);
  }

  /** Every batch of the frame lies inside its vertex buffer's written vertices. */
  lemma BatchesInsideBuffers(c: Canvas, k: nat)
    requires Valid(c) && c.inFrame && k < |Batches(c)|
    ensures var b := Batches(c)[k];
      b.buffer < Pool(c).num && b.count >= IndicesPerQuad && b.count % IndicesPerQuad == 0
      && b.offset + b.count / IndicesPerQuad * VerticesPerQuad <= Pool(c).buffers[b.buffer].Count()
  {
    assert Placed(Batches(c)[k], Pool(c));
    if k < |Batches(c)| - 1 {
      assert Batches(c)[k].count >= IndicesPerQuad;
    }
  }

  /**
   * `beginFrame`: create the white image on first use, wait on the slot's fence
   * (see FrameClock.WaitValue), reset the slot's pool and batch list, forget the
   * current batch, and in atlas mode reset the atlas, every frame.
   * `whiteId` stands for the image `createImage` returns.
   */
  function BeginFrame(c: Canvas, whiteId: ImageId): (r: Canvas)
    requires Valid(c) && !c.inFrame
    ensures Valid(r) && r.inFrame && r.clock == c.clock && r.config == c.config && r.stack == c.stack
    ensures r.whiteImage == if c.whiteImage.None? then Some(Image(whiteId, WhiteImageWidth, WhiteImageHeight)) else c.whiteImage
    ensures Pool(r).num == 0 && Pool(r).buffers == Pool(c).buffers && Batches(r) == [] && r.currBuffer.None?
    ensures forall s :: 0 <= s < MaxFrames && s != c.clock.slot ==> r.pools[s] == c.pools[s] && r.batches[s] == c.batches[s]
    ensures c.config.atlasEnabled ==>
              r.atlas.free.items == [TextureAtlas.Rect(0, 0, TextureAtlas.AtlasWidth, TextureAtlas.AtlasHeight)]
              && r.atlas.used.items == [] && r.atlas.images == map[]
    ensures !c.config.atlasEnabled ==> r.atlas == c.atlas
  {
    var white := if c.whiteImage.None? then Some(Image(whiteId, WhiteImageWidth, WhiteImageHeight)) else c.whiteImage;
    var s := c.clock.slot;
    var atlas := if c.config.atlasEnabled then TextureAtlas.Reset(c.atlas) else c.atlas;
    var r := c.(whiteImage := white, pools := c.pools[s := ResetPool(c.pools[s])], batches := c.batches[s := []],
                atlas := atlas, inFrame := true);
    assert CurrentFrame(r) == Frame(ResetPool(c.pools[s]), [], None);
    r
  }

  /**
   * `swapFrame`: signal and record the slot's fence value, advance the frame
   * and slot, and drop the current vertex buffer.
   */
  function SwapFrame(c: Canvas): (r: Canvas)
    requires Valid(c)
    ensures Valid(r) && !r.inFrame && r.clock == FrameClock.Swap(c.clock) && r.currBuffer.None?
    ensures r.pools == c.pools && r.batches == c.batches && r.stack == c.stack && r.atlas == c.atlas
  {
    c.(clock := FrameClock.Swap(c.clock), currBuffer := None, inFrame := false)
  }

  /**
   * The D3D12 `endFrame`: `drawFrame` consumes the batches, clears the atlas bit
   * of every image packed this frame (atlas mode) and empties the bindless table
   * (bindless mode); then `swapFrame`.
   */
  function EndFrame(c: Canvas): (r: Canvas)
    requires Valid(c) && c.inFrame
    ensures Valid(r) && !r.inFrame && r.clock == FrameClock.Swap(c.clock)
    ensures r.pools == c.pools && r.batches == c.batches
    ensures c.config.atlasEnabled ==> forall id :: id in c.atlas.images ==> id !in r.resident
    ensures c.config.bindlessEnabled ==> r.table == BindlessTable.Empty()
  {
    var resident := if c.config.atlasEnabled then c.resident - c.atlas.images.Keys else c.resident;
    var table := if c.config.bindlessEnabled then BindlessTable.Empty() else c.table;
    SwapFrame(c.(resident := resident, table := table))
  }

  /** Texture coordinates of a quad: (u0, v0) top-left, (u1, v1) bottom-right. */
  datatype UVRect = UVRect(u0: real, v0: real, u1: real, v1: real)

  /** The four corners in `drawImage` order, all with one colour and texture id 0. */
  function QuadVertices(x: real, y: real, w: real, h: real, uv: UVRect, color: bv32): (q: seq<Vertex>)
    ensures |q| == VerticesPerQuad
    ensures q[0].pos == Point(x, y) && q[1].pos == Point(x, y + h) && q[2].pos == Point(x + w, y + h) && q[3].pos == Point(x + w, y)
    ensures q[0].uv == Point(uv.u0, uv.v0) && q[1].uv == Point(uv.u0, uv.v1)
    ensures q[2].uv == Point(uv.u1, uv.v1) && q[3].uv == Point(uv.u1, uv.v0)
    ensures forall i :: 0 <= i < |q| ==> q[i].color == color
  {
    [Vertex(Point(x, y), Point(uv.u0, uv.v0), color, 0),
     Vertex(Point(x, y + h), Point(uv.u0, uv.v1), color, 0),
     Vertex(Point(x + w, y + h), Point(uv.u1, uv.v1), color, 0),
     Vertex(Point(x + w, y), Point(uv.u1, uv.v0), color, 0)]
  }

  /** Without the atlas: the frame in image pixels divided by the image size. */
  function ImageUVs(img: Image, fx: real, fy: real, fw: real, fh: real): (uv: UVRect)
    requires img.width > 0 && img.height > 0
    ensures uv.u0 * (img.width as real) == fx && uv.u1 * (img.width as real) == fx + fw
    ensures uv.v0 * (img.height as real) == fy && uv.v1 * (img.height as real) == fy + fh
  {
    UVRect(fx / img.width as real, fy / img.height as real, (fx + fw) / img.width as real, (fy + fh) / img.height as real)
  }

  /** With the atlas: the frame offset by the image's atlas rectangle, divided by the atlas size. */
  function AtlasUVs(rect: TextureAtlas.Rect, fx: real, fy: real, fw: real, fh: real): (uv: UVRect)
    ensures uv.u0 * (TextureAtlas.AtlasWidth as real) == rect.x as real + fx
    ensures uv.u1 * (TextureAtlas.AtlasWidth as real) == rect.x as real + fx + fw
    ensures uv.v0 * (TextureAtlas.AtlasHeight as real) == rect.y as real + fy
    ensures uv.v1 * (TextureAtlas.AtlasHeight as real) == rect.y as real + fy + fh
  {
    var aw := TextureAtlas.AtlasWidth as real;
    var ah := TextureAtlas.AtlasHeight as real;
    UVRect((rect.x as real + fx) / aw, (rect.y as real + fy) / ah,
           (rect.x as real + fx + fw) / aw, (rect.y as real + fy + fh) / ah)
  }

  /**
   * What a draw call needs: room for the quad, and an image size to divide by
   * when there is no atlas. A positive size costs no generality: the D3D12
   * `createImage` stops at its D3D_ASSERT when asked for a zero-width or
   * zero-height texture, so no drawable image has one.
   */
  predicate CanDraw(c: Canvas, img: Image)
    requires Valid(c) && c.inFrame
  {
    CanPush(c, img) && (!c.config.atlasEnabled ==> img.width > 0 && img.height > 0)
  }

  /**
   * The newest quad of `r` is the rectangle (x, y, w, h) mapped through `m`, with
   * texture coordinates `uv` in `drawImage` corner order and `color` on every vertex.
   */
  predicate LastQuadIs(r: Canvas, m: Matrix, x: real, y: real, w: real, h: real, uv: UVRect, color: bv32)
    requires Valid(r) && r.inFrame && r.currBuffer.Some?
  {
    var q := LastQuad(r);
    |q| == VerticesPerQuad
    && q[0].pos == Multiply(m, Point(x, y)) && q[1].pos == Multiply(m, Point(x, y + h))
    && q[2].pos == Multiply(m, Point(x + w, y + h)) && q[3].pos == Multiply(m, Point(x + w, y))
    && q[0].uv == Point(uv.u0, uv.v0) && q[1].uv == Point(uv.u0, uv.v1)
    && q[2].uv == Point(uv.u1, uv.v1) && q[3].uv == Point(uv.u1, uv.v0)
    && forall i :: 0 <= i < VerticesPerQuad ==> q[i].color == color
  }

  /** The full `drawImage`: place the image in the atlas when enabled, build the quad, push it. */
  function DrawImage(c: Canvas, x: real, y: real, w: real, h: real, fx: real, fy: real, fw: real, fh: real,
                     color: bv32, img: Image): (r: Canvas)
    requires Valid(c) && c.inFrame && CanDraw(c, img)
    ensures Valid(r) && r.inFrame && r.currBuffer.Some? && r.clock == c.clock && r.stack == c.stack
    ensures !c.config.atlasEnabled ==> r.atlas == c.atlas && r.resident == c.resident
    ensures c.config.atlasEnabled ==> r.resident == TextureAtlas.AddImage(c.atlas, c.resident, img).resident
    ensures LastQuadIs(r, c.stack.current, x, y, w, h, DrawnUVs(c, img, fx, fy, fw, fh), color)
  {
    var uv := DrawnUVs(c, img, fx, fy, fw, fh);
    var c1 := WithAtlasImage(c, img);
    var quad := QuadVertices(x, y, w, h, uv, color);
    PushQuadWrites(c1, quad, img);
    PushQuad(c1, quad, img)
  }

  /** The canvas after `addImage` in atlas mode; unchanged otherwise. */
  function WithAtlasImage(c: Canvas, img: Image): (r: Canvas)
    requires Valid(c) && c.inFrame && CanDraw(c, img)
    ensures Valid(r) && r.inFrame && CanPush(r, img)
    ensures r.clock == c.clock && r.stack == c.stack && r.config == c.config && CurrentFrame(r) == CurrentFrame(c)
    ensures r.table == c.table && r.whiteImage == c.whiteImage
    ensures !c.config.atlasEnabled ==> r == c
    ensures c.config.atlasEnabled ==> r.resident == TextureAtlas.AddImage(c.atlas, c.resident, img).resident
  {
    if c.config.atlasEnabled then
      var placed := TextureAtlas.AddImage(c.atlas, c.resident, img);
      TextureAtlas.AddImagePreservesValid(c.atlas, c.resident, img);
      c.(atlas := placed.atlas, resident := placed.resident)
    else c
  }

  /** The texture coordinates `drawImage` computes for the frame (fx, fy, fw, fh). */
  function DrawnUVs(c: Canvas, img: Image, fx: real, fy: real, fw: real, fh: real): UVRect
    requires Valid(c) && c.inFrame && CanDraw(c, img)
  {
    if c.config.atlasEnabled then AtlasUVs(TextureAtlas.AddImage(c.atlas, c.resident, img).rect, fx, fy, fw, fh)
    else ImageUVs(img, fx, fy, fw, fh)
  }

  /** `drawImage(x, y, image)`: the whole image at its own size, opaque white tint. */
  function DrawImageAt(c: Canvas, x: real, y: real, img: Image): (r: Canvas)
    requires Valid(c) && c.inFrame && CanDraw(c, img)
    ensures Valid(r) && r.inFrame && r.currBuffer.Some? && r.clock == c.clock && r.stack == c.stack
    ensures LastQuadIs(r, c.stack.current, x, y, img.width as real, img.height as real,
                       DrawnUVs(c, img, 0.0, 0.0, img.width as real, img.height as real), 0xffff_ffff)
  {
    DrawImage(c, x, y, img.width as real, img.height as real, 0.0, 0.0, img.width as real, img.height as real, 0xffff_ffff, img)
  }

  /** `drawImage(x, y, color, image)`: the whole image at its own size, tinted. */
  function DrawImageAtTinted(c: Canvas, x: real, y: real, color: bv32, img: Image): (r: Canvas)
    requires Valid(c) && c.inFrame && CanDraw(c, img)
    ensures Valid(r) && r.inFrame && r.currBuffer.Some? && r.clock == c.clock && r.stack == c.stack
    ensures LastQuadIs(r, c.stack.current, x, y, img.width as real, img.height as real,
                       DrawnUVs(c, img, 0.0, 0.0, img.width as real, img.height as real), color)
  {
    DrawImage(c, x, y, img.width as real, img.height as real, 0.0, 0.0, img.width as real, img.height as real, color, img)
  }

  /** `drawImage(x, y, w, h, image)`: the frame is (0, 0, w, h) in image pixels, not the whole image. */
  function DrawImageSized(c: Canvas, x: real, y: real, w: real, h: real, img: Image): (r: Canvas)
    requires Valid(c) && c.inFrame && CanDraw(c, img)
    ensures Valid(r) && r.inFrame && r.currBuffer.Some? && r.clock == c.clock && r.stack == c.stack
    ensures LastQuadIs(r, c.stack.current, x, y, w, h, DrawnUVs(c, img, 0.0, 0.0, w, h), 0xffff_ffff)
  {
    DrawImage(c, x, y, w, h, 0.0, 0.0, w, h, 0xffff_ffff, img)
  }

  /** `drawImage(x, y, w, h, color, image)`: as the sized overload, tinted. */
  function DrawImageSizedTinted(c: Canvas, x: real, y: real, w: real, h: real, color: bv32, img: Image): (r: Canvas)
    requires Valid(c) && c.inFrame && CanDraw(c, img)
    ensures Valid(r) && r.inFrame && r.currBuffer.Some? && r.clock == c.clock && r.stack == c.stack
    ensures LastQuadIs(r, c.stack.current, x, y, w, h, DrawnUVs(c, img, 0.0, 0.0, w, h), color)
  {
    DrawImage(c, x, y, w, h, 0.0, 0.0, w, h, color, img)
  }

  /** `drawImage(x, y, fx, fy, fw, fh, color, image)`: the frame is drawn at the whole image's size. */
  function DrawImageFrame(c: Canvas, x: real, y: real, fx: real, fy: real, fw: real, fh: real, color: bv32, img: Image): (r: Canvas)
    requires Valid(c) && c.inFrame && CanDraw(c, img)
    ensures Valid(r) && r.inFrame && r.currBuffer.Some? && r.clock == c.clock && r.stack == c.stack
    ensures LastQuadIs(r, c.stack.current, x, y, img.width as real, img.height as real, DrawnUVs(c, img, fx, fy, fw, fh), color)
  {
    DrawImage(c, x, y, img.width as real, img.height as real, fx, fy, fw, fh, color, img)
  }

  /** `drawRect`: the white image's frame (0, 0, 2, 2) stretched over the rectangle. */
  function DrawRect(c: Canvas, x: real, y: real, w: real, h: real, color: bv32): (r: Canvas)
    requires Valid(c) && c.inFrame && c.whiteImage.Some? && CanDraw(c, c.whiteImage.value)
    ensures Valid(r) && r.inFrame && r.currBuffer.Some? && r.clock == c.clock && r.stack == c.stack
    ensures LastQuadIs(r, c.stack.current, x, y, w, h,
                       DrawnUVs(c, c.whiteImage.value, 0.0, 0.0, WhiteImageWidth as real, WhiteImageHeight as real), color)
  {
    DrawImage(c, x, y, w, h, 0.0, 0.0, WhiteImageWidth as real, WhiteImageHeight as real, color, c.whiteImage.value)
  }

  /** The first quad of a frame allocates buffer 0 and opens a batch holding just that quad. */
  lemma FirstQuadOfFrame(c: Canvas, q: seq<Vertex>, img: Image)
    requires Valid(c) && c.inFrame && c.currBuffer.None? && |q| == VerticesPerQuad
    requires c.config.bindlessEnabled ==> |c.table.images| < BindlessTable.MaxBoundImages
    ensures CanPush(c, img)
    ensures var r := PushQuad(c, q, img);
      r.currBuffer == Some(0) && Batches(r) == [DrawBatch(img, 0, 0, IndicesPerQuad)]
      && Pool(r).buffers[0].Count() == VerticesPerQuad && !NeedsBuffer(CurrentFrame(r))
      && (r.config.bindlessEnabled ==> img.id in r.table.ids)
  {
  }

  /** In a fresh frame two quads of one image end up in a single batch of 12 indices. */
  lemma SameImageQuadsShareBatch(c: Canvas, q1: seq<Vertex>, q2: seq<Vertex>, img: Image)
    requires Valid(c) && c.inFrame && c.currBuffer.None? && |q1| == VerticesPerQuad && |q2| == VerticesPerQuad
    requires c.config.bindlessEnabled ==> |c.table.images| < BindlessTable.MaxBoundImages
    ensures CanPush(c, img)
    ensures var c1 := PushQuad(c, q1, img);
      CanPush(c1, img) && Batches(PushQuad(c1, q2, img)) == [DrawBatch(img, 0, 0, 2 * IndicesPerQuad)]
  {
    FirstQuadOfFrame(c, q1, img);
    SecondQuadSameImage(PushQuad(c, q1, img), q2, img);
  }

  /** After a first quad of `img`, a second quad of `img` joins its batch. */
  lemma SecondQuadSameImage(c: Canvas, q: seq<Vertex>, img: Image)
    requires Valid(c) && c.inFrame && |q| == VerticesPerQuad
    requires c.currBuffer == Some(0) && Batches(c) == [DrawBatch(img, 0, 0, IndicesPerQuad)]
    requires !NeedsBuffer(CurrentFrame(c)) && (c.config.bindlessEnabled ==> img.id in c.table.ids)
    ensures CanPush(c, img) && Batches(PushQuad(c, q, img)) == [DrawBatch(img, 0, 0, 2 * IndicesPerQuad)]
  {
    PushQuadExtendsBatch(c, q, img);
    var bl := Batches(PushQuad(c, q, img));
    assert |bl| == 1 && bl[0] == DrawBatch(img, 0, 0, 2 * IndicesPerQuad);
  }

  /** Without atlas or bindless mode, a quad of image a followed by one of image b gives two batches in one buffer. */
  lemma DifferentImagesSplit(c: Canvas, q1: seq<Vertex>, q2: seq<Vertex>, a: Image, b: Image)
    requires Valid(c) && c.inFrame && c.currBuffer.None? && c.config.SplitsOnImageChange() && a != b
    requires |q1| == VerticesPerQuad && |q2| == VerticesPerQuad
    ensures CanPush(c, a)
    ensures var c1 := PushQuad(c, q1, a);
      CanPush(c1, b)
      && Batches(PushQuad(c1, q2, b)) == [DrawBatch(a, 0, 0, IndicesPerQuad), DrawBatch(b, 0, 4, IndicesPerQuad)]
  {
    FirstQuadOfFrame(c, q1, a);
    var c1 := PushQuad(c, q1, a);
    assert CanPush(c1, b);
    PushQuadSplitsOnImage(c1, q2, b);
  }

  /** Without the atlas, `drawImage(x, y, image)` maps the whole image: UVs run from (0, 0) to (1, 1). */
  lemma DrawImageAtWholeImage(c: Canvas, x: real, y: real, img: Image)
    requires Valid(c) && c.inFrame && CanDraw(c, img) && !c.config.atlasEnabled
    ensures var q := LastQuad(DrawImageAt(c, x, y, img));
      q[0].uv == Point(0.0, 0.0) && q[2].uv == Point(1.0, 1.0)
      && q[2].pos == Multiply(c.stack.current, Point(x + img.width as real, y + img.height as real))
  {
    var iw := img.width as real;
    var ih := img.height as real;
    var uv := ImageUVs(img, 0.0, 0.0, iw, ih);
    assert uv == UVRect(0.0, 0.0, 1.0, 1.0) by {
      WholeFrame(iw);
      WholeFrame(ih);
    }
    assert DrawnUVs(c, img, 0.0, 0.0, iw, ih) == uv;
    QuadCorners(DrawImageAt(c, x, y, img), c.stack.current, x, y, iw, ih, uv, 0xffff_ffff);
  }

  /** The two opposite corners of a quad described by LastQuadIs. */
  lemma QuadCorners(r: Canvas, m: Matrix, x: real, y: real, w: real, h: real, uv: UVRect, color: bv32)
    requires Valid(r) && r.inFrame && r.currBuffer.Some? && LastQuadIs(r, m, x, y, w, h, uv, color)
    ensures var q := LastQuad(r);
      |q| == VerticesPerQuad
      && q[0].uv == Point(uv.u0, uv.v0) && q[2].uv == Point(uv.u1, uv.v1)
      && q[0].pos == Multiply(m, Point(x, y)) && q[2].pos == Multiply(m, Point(x + w, y + h))
  {
  }

  lemma WholeFrame(size: real)
    requires size > 0.0
    ensures 0.0 / size == 0.0 && (0.0 + size) / size == 1.0
  {
  }

  /**
   * Without the atlas, the sized overload samples the w-by-h corner of the image:
   * its far UV is (w / width, h / height), which is (1, 1) only when w and h are the image size.
   */
  lemma DrawImageSizedSamplesCorner(c: Canvas, x: real, y: real, w: real, h: real, img: Image)
    requires Valid(c) && c.inFrame && CanDraw(c, img) && !c.config.atlasEnabled
    ensures var q := LastQuad(DrawImageSized(c, x, y, w, h, img));
      q[0].uv == Point(0.0, 0.0) && q[2].uv == Point(w / img.width as real, h / img.height as real)
      && q[2].pos == Multiply(c.stack.current, Point(x + w, y + h))
  {
  }

  /**
   * Without the atlas, the frame overload samples exactly the frame, in image
   * pixels over the image size, on a quad of the whole image's size.
   */
  lemma DrawImageFrameSamples(c: Canvas, x: real, y: real, fx: real, fy: real, fw: real, fh: real, color: bv32, img: Image)
    requires Valid(c) && c.inFrame && CanDraw(c, img) && !c.config.atlasEnabled
    ensures var q := LastQuad(DrawImageFrame(c, x, y, fx, fy, fw, fh, color, img));
      var iw := img.width as real; var ih := img.height as real;
      q[0].uv == Point(fx / iw, fy / ih) && q[2].uv == Point((fx + fw) / iw, (fy + fh) / ih)
      && q[0].pos == Multiply(c.stack.current, Point(x, y)) && q[2].pos == Multiply(c.stack.current, Point(x + iw, y + ih))
  {
    var uv := ImageUVs(img, fx, fy, fw, fh);
    assert DrawnUVs(c, img, fx, fy, fw, fh) == uv;
    QuadCorners(DrawImageFrame(c, x, y, fx, fy, fw, fh, color, img), c.stack.current, x, y,
                img.width as real, img.height as real, uv, color);
  }

  /**
   * The frame overload draws at the whole image's size whatever the frame:
   * frame (16, 0, 16, 16) of a 64x32 image gives UVs (0.25, 0) to (0.5, 0.5) on a 64x32 quad.
   */
  lemma DrawImageFrameExample(c: Canvas, x: real, y: real, id: ImageId)
    requires Valid(c) && c.inFrame && CanDraw(c, Image(id, 64, 32)) && !c.config.atlasEnabled
    ensures var q := LastQuad(DrawImageFrame(c, x, y, 16.0, 0.0, 16.0, 16.0, 0xffff_ffff, Image(id, 64, 32)));
      q[0].uv == Point(0.25, 0.0) && q[2].uv == Point(0.5, 0.5)
      && q[0].pos == Multiply(c.stack.current, Point(x, y)) && q[2].pos == Multiply(c.stack.current, Point(x + 64.0, y + 32.0))
  {
    var img := Image(id, 64, 32);
    assert DrawnUVs(c, img, 16.0, 0.0, 16.0, 16.0) == UVRect(0.25, 0.0, 0.5, 0.5);
  }

  /** Without the atlas, `drawRect` samples the whole 2x2 white image. */
  lemma DrawRectWholeWhite(c: Canvas, x: real, y: real, w: real, h: real, color: bv32)
    requires Valid(c) && c.inFrame && c.whiteImage.Some? && CanDraw(c, c.whiteImage.value) && !c.config.atlasEnabled
    requires c.whiteImage.value.width == WhiteImageWidth && c.whiteImage.value.height == WhiteImageHeight
    ensures var q := LastQuad(DrawRect(c, x, y, w, h, color));
      q[0].uv == Point(0.0, 0.0) && q[2].uv == Point(1.0, 1.0) && q[0].color == color
  {
  }

  /**
   * In atlas mode `drawImage(x, y, image)` computes the image's atlas rectangle
   * over the atlas size as its UVs (DrawImageAt puts them on the quad).
   */
  lemma DrawImageAtlasUVs(c: Canvas, img: Image)
    requires Valid(c) && c.inFrame && CanDraw(c, img) && c.config.atlasEnabled
    ensures var rect := TextureAtlas.AddImage(c.atlas, c.resident, img).rect;
      DrawnUVs(c, img, 0.0, 0.0, img.width as real, img.height as real)
      == UVRect(rect.x as real / 4096.0, rect.y as real / 4096.0, (rect.x + img.width) as real / 4096.0, (rect.y + img.height) as real / 4096.0)
  {
    WholeImageInAtlas(TextureAtlas.AddImage(c.atlas, c.resident, img).rect, img.width, img.height);
  }

  /** The atlas UVs of a whole w-by-h image placed at rect. */
  lemma WholeImageInAtlas(rect: TextureAtlas.Rect, w: nat, h: nat)
    ensures AtlasUVs(rect, 0.0, 0.0, w as real, h as real)
      == UVRect(rect.x as real / 4096.0, rect.y as real / 4096.0, (rect.x + w) as real / 4096.0, (rect.y + h) as real / 4096.0)
  {
    assert (rect.x + w) as real == rect.x as real + 0.0 + w as real;
    assert (rect.y + h) as real == rect.y as real + 0.0 + h as real;
  }


  /** The white image is created by the first `beginFrame` only. */
  lemma WhiteImageCreatedOnce(c: Canvas, id1: ImageId, id2: ImageId)
    requires Valid(c) && !c.inFrame && c.whiteImage.None?
    ensures (EndFrame(BeginFrame(c, id1))).whiteImage == Some(Image(id1, 2, 2))
    ensures BeginFrame(EndFrame(BeginFrame(c, id1)), id2).whiteImage == Some(Image(id1, 2, 2))
  {
  }
}
