/** Compile-time limits of the canvas core (src/backend/canvas_internal.h). */
module CanvasLimits {

  const IndicesPerQuad: nat := 6
  const VerticesPerQuad: nat := 4
  /** Quads that fit in one vertex buffer: 1 << 16. */
  const MaxQuadsPerBuffer: nat := 0x1_0000
  const MaxVertsPerBuffer: nat := MaxQuadsPerBuffer * VerticesPerQuad
  const MaxIndices: nat := MaxQuadsPerBuffer * IndicesPerQuad
  /** Vertex buffers per frame: 1 << 7. */
  const MaxVertexBuffers: nat := 0x80
  /** Draw batches per frame: 1 << 12. */
  const MaxBatches: nat := 0x1000
  /** Depth of the matrix stack: 1 << 10. */
  const MaxMatrixStackDepth: nat := 0x400
  /** Frames in flight. */
  const MaxFrames: nat := 2
  const WhiteImageWidth: nat := 2
  const WhiteImageHeight: nat := 2

  /** The derived limits work out to the values the canvas relies on. */
  lemma DerivedLimits()
    ensures MaxVertsPerBuffer == 262144
    ensures MaxIndices == 393216
    ensures MaxIndices / IndicesPerQuad * VerticesPerQuad == MaxVertsPerBuffer
    ensures MaxVertexBuffers == 128 && MaxBatches == 4096 && MaxMatrixStackDepth == 1024
  {
  }
}
