/**
 * The shared index buffer built by NkCanvasBase::init: every quad's four
 * vertices are drawn as the two triangles (v0, v1, v2) and (v0, v2, v3).
 */
module QuadIndices {
  import opened CanvasLimits

  /** Offset of each of the six indices of a quad from its first vertex. */
  function Corner(k: nat): nat
    requires k < IndicesPerQuad
  {
    [0, 1, 2, 0, 2, 3][k]
  }

  /** Position in the index buffer of index k of quad q. */
  function Slot(q: nat, k: nat): nat { IndicesPerQuad * q + k }

  /** The loop of `init`: six indices per quad, the vertex base advancing by four. */
  method BuildIndices() returns (indices: seq<nat>)
    ensures |indices| == MaxIndices
    ensures forall q, k :: 0 <= q < MaxQuadsPerBuffer && 0 <= k < IndicesPerQuad ==>
              indices[Slot(q, k)] == VerticesPerQuad * q + Corner(k)
    ensures forall i :: 0 <= i < |indices| ==> indices[i] < MaxVertsPerBuffer
  {
    indices := [];
    var vertex := 0;
    while |indices| < MaxIndices
      invariant |indices| % IndicesPerQuad == 0 && |indices| <= MaxIndices
      invariant vertex == |indices| / IndicesPerQuad * VerticesPerQuad
      invariant forall q, k :: 0 <= q < |indices| / IndicesPerQuad && 0 <= k < IndicesPerQuad ==>
                  indices[Slot(q, k)] == VerticesPerQuad * q + Corner(k)
      invariant forall i :: 0 <= i < |indices| ==> indices[i] < vertex
    {
      var q := |indices| / IndicesPerQuad;
      var quad := [vertex, vertex + 1, vertex + 2, vertex, vertex + 2, vertex + 3];
      forall k | 0 <= k < IndicesPerQuad
        ensures (indices + quad)[Slot(q, k)] == VerticesPerQuad * q + Corner(k)
      {
      }
      indices := indices + quad;
      vertex := vertex + VerticesPerQuad;
    }
  }
}
