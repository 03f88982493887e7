/**
 * The bindless texture table of the D3D12 backend (NK_CANVAS_BINDLESS_RESOURCE_ENABLED):
 * `addImageToTable` gives each image drawn in a frame a texture id, and
 * `drawFrame` clears every image's BOUND bit and empties the table.
 * `images` is the canvas's `images` array (id -> image, `imageNum` entries);
 * `ids` stands for the BOUND bit and cached `textureId` of each image.
 */
module BindlessTable {
  /** NK_CANVAS_D3D12_MAX_SRV_DESCRIPTORS_PER_FRAME: the size of the `images` array. */
  const MaxBoundImages: nat := 0x1_0000

  datatype Table = Table(images: seq<nat>, ids: map<nat, nat>) {
    /** The ids are exactly 0 .. |images|-1, one per bound image. */
    ghost predicate Valid() {
      |images| <= MaxBoundImages
      && (forall t :: 0 <= t < |images| ==> images[t] in ids && ids[images[t]] == t)
      && (forall a :: a in ids ==> ids[a] < |images| && images[ids[a]] == a)
    }
  }

  /** The empty table, as left by `drawFrame`. */
  function Empty(): (t: Table)
    ensures t.Valid() && t.ids == map[] && |t.images| == 0
  {
    Table([], map[])
  }

  /**
   * `addImageToTable`: a bound image keeps its id; otherwise it gets id
   * `imageNum` and `imageNum` grows. The array has no bounds check, so a new
   * image needs a free entry.
   */
  function AddImage(t: Table, image: nat): (r: (Table, nat))
    requires t.Valid() && (image in t.ids || |t.images| < MaxBoundImages)
    ensures r.0.Valid()
    ensures image in t.ids ==> r == (t, t.ids[image])
    ensures image !in t.ids ==> r.1 == |t.images| && r.0.images == t.images + [image]
    ensures r.0.ids == t.ids[image := r.1]
  {
    if image in t.ids then (t, t.ids[image])
    else (Table(t.images + [image], t.ids[image := |t.images|]), |t.images|)
  }

  /** Distinct images bound in a frame get distinct ids, and ids identify their image. */
  lemma IdsDistinct(t: Table, a: nat, b: nat)
    requires t.Valid() && a in t.ids && b in t.ids && a != b
    ensures t.ids[a] != t.ids[b]
  {
  }

  /** Adding the same image again returns the same id and leaves the table as it was. */
  lemma AddImageTwice(t: Table, image: nat)
    requires t.Valid() && (image in t.ids || |t.images| < MaxBoundImages)
    ensures var r1 := AddImage(t, image); AddImage(r1.0, image) == r1
  {
  }
}
