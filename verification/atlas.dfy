/**
 * The per-frame texture atlas (NkTextureAtlas): a guillotine packer over
 * integer rectangles. Free and used rectangles together tile the atlas:
 * every atlas pixel lies in exactly one of them and no other pixel lies in any.
 */
module TextureAtlas {
  import opened Wrappers
  import opened Images
  import opened GrowableArray

  const AtlasWidth: nat := 4096
  const AtlasHeight: nat := 4096

  datatype Rect = Rect(x: nat, y: nat, w: nat, h: nat) {
    function Area(): nat { w * h }
    predicate Covers(px: int, py: int) { x <= px < x + w && y <= py < y + h }
  }

  /** `canFit`: a rectangle of the requested size fits at this rectangle's origin. */
  predicate CanFit(r: Rect, w: nat, h: nat) { w <= r.w && h <= r.h }

  /** How many rectangles of `rs` contain the pixel (px, py). */
  function CoverCount(rs: seq<Rect>, px: int, py: int): nat
  {
    if rs == [] then 0 else (if rs[0].Covers(px, py) then 1 else 0) + CoverCount(rs[1..], px, py)
  }

  function AreaSum(rs: seq<Rect>): nat
  {
    if rs == [] then 0 else rs[0].Area() + AreaSum(rs[1..])
  }

  /** `rs` tiles the w-by-h rectangle at the origin. */
  ghost predicate Tiles(rs: seq<Rect>, w: nat, h: nat)
  {
    forall px: int, py: int :: CoverCount(rs, px, py) == (if 0 <= px < w && 0 <= py < h then 1 else 0)
  }

  lemma {:induction false} CoverCountAppend(a: seq<Rect>, b: seq<Rect>, px: int, py: int)
    ensures CoverCount(a + b, px, py) == CoverCount(a, px, py) + CoverCount(b, px, py)
    decreases |a|
  {
    if a != [] {
      assert (a + b)[1..] == a[1..] + b;
      CoverCountAppend(a[1..], b, px, py);
    } else {
      assert a + b == b;
    }
  }

  lemma {:induction false} AreaSumAppend(a: seq<Rect>, b: seq<Rect>)
    ensures AreaSum(a + b) == AreaSum(a) + AreaSum(b)
    decreases |a|
  {
    if a != [] {
      assert (a + b)[1..] == a[1..] + b;
      AreaSumAppend(a[1..], b);
    } else {
      assert a + b == b;
    }
  }

  /** The result of `split`: the shrunk rectangle and the pieces written to `outRects`. */
  datatype SplitResult = SplitResult(placed: Rect, pieces: seq<Rect>)

  /**
   * `split(nw, nh)`: the rectangle shrinks to nw-by-nh at the same origin; the
   * right, bottom and corner remainders are emitted in that order when non-empty.
   */
  function Split(r: Rect, nw: nat, nh: nat): (s: SplitResult)
    requires nw <= r.w && nh <= r.h
    ensures s.placed == Rect(r.x, r.y, nw, nh)
    ensures s.pieces == [] <==> nw == r.w && nh == r.h
    ensures |s.pieces| == (if nw < r.w then 1 else 0) + (if nh < r.h then 1 else 0) + (if nw < r.w && nh < r.h then 1 else 0)
  {
    if r.w == nw && r.h == nh then SplitResult(r, [])
    else
      var right := if nw < r.w then [Rect(r.x + nw, r.y, r.w - nw, nh)] else [];
      var bottom := if nh < r.h then [Rect(r.x, r.y + nh, nw, r.h - nh)] else [];
      var corner := if nw < r.w && nh < r.h then [Rect(r.x + nw, r.y + nh, r.w - nw, r.h - nh)] else [];
      SplitResult(Rect(r.x, r.y, nw, nh), right + bottom + corner)
  }

  /** The shrunk rectangle and the pieces cover exactly the pixels of the original, once each. */
  lemma SplitTiles(r: Rect, nw: nat, nh: nat, px: int, py: int)
    requires nw <= r.w && nh <= r.h
    ensures var s := Split(r, nw, nh);
      CoverCount([s.placed] + s.pieces, px, py) == if r.Covers(px, py) then 1 else 0
  {
    var s := Split(r, nw, nh);
    if !(r.w == nw && r.h == nh) {
      var right := if nw < r.w then [Rect(r.x + nw, r.y, r.w - nw, nh)] else [];
      var bottom := if nh < r.h then [Rect(r.x, r.y + nh, nw, r.h - nh)] else [];
      var corner := if nw < r.w && nh < r.h then [Rect(r.x + nw, r.y + nh, r.w - nw, r.h - nh)] else [];
      assert [s.placed] + s.pieces == [s.placed] + right + bottom + corner;
      CoverCountAppend([s.placed] + right + bottom, corner, px, py);
      CoverCountAppend([s.placed] + right, bottom, px, py);
      CoverCountAppend([s.placed], right, px, py);
    }
  }

  /** The areas of the shrunk rectangle and the pieces add up to the original area. */
  lemma SplitConservesArea(r: Rect, nw: nat, nh: nat)
    requires nw <= r.w && nh <= r.h
    ensures var s := Split(r, nw, nh); AreaSum([s.placed] + s.pieces) == r.Area()
  {
    var s := Split(r, nw, nh);
    if !(r.w == nw && r.h == nh) {
      var right := if nw < r.w then [Rect(r.x + nw, r.y, r.w - nw, nh)] else [];
      var bottom := if nh < r.h then [Rect(r.x, r.y + nh, nw, r.h - nh)] else [];
      var corner := if nw < r.w && nh < r.h then [Rect(r.x + nw, r.y + nh, r.w - nw, r.h - nh)] else [];
      assert [s.placed] + s.pieces == [s.placed] + right + bottom + corner;
      AreaSumAppend([s.placed] + right + bottom, corner);
      AreaSumAppend([s.placed] + right, bottom);
      AreaSumAppend([s.placed], right);
      var dw := r.w - nw;
      var dh := r.h - nh;
      calc {
        r.w * r.h;
        (nw + dw) * (nh + dh);
        nw * nh + dw * nh + nw * dh + dw * dh;
      }
    }
  }

  /** The first rectangle, in array order, that can hold a w-by-h rectangle. */
  function FirstFit(rs: seq<Rect>, w: nat, h: nat): (r: Option<nat>)
    ensures r.Some? ==> r.value < |rs| && CanFit(rs[r.value], w, h)
    ensures r.Some? ==> forall j :: 0 <= j < r.value ==> !CanFit(rs[j], w, h)
    ensures r.None? <==> forall j :: 0 <= j < |rs| ==> !CanFit(rs[j], w, h)
  {
    if rs == [] then None
    else if CanFit(rs[0], w, h) then Some(0)
    else match FirstFit(rs[1..], w, h)
      case None => None
      case Some(k) => Some(k + 1)
  }

  datatype Atlas = Atlas(width: nat, height: nat, free: GrowArray<Rect>, used: GrowArray<Rect>,
                         images: map<ImageId, Rect>) {
    function All(): seq<Rect> { free.items + used.items }

    ghost predicate Valid() {
      free.Valid() && used.Valid() && Tiles(All(), width, height) && AreaSum(All()) == width * height
    }
  }

  /** `init`: a single free rectangle covering the atlas, nothing used, no images. */
  function Init(width: nat, height: nat): (a: Atlas)
    ensures a.Valid()
    ensures a.free.items == [Rect(0, 0, width, height)] && a.used.items == [] && a.images == map[]
  {
    var a := Atlas(width, height, Add(GrowableArray.Init(), Rect(0, 0, width, height)), GrowableArray.Init(), map[]);
    assert a.All() == [Rect(0, 0, width, height)];
    assert AreaSum(a.All()) == width * height by { assert a.All()[1..] == []; }
    a
  }

  /** `reset`: back to the single free rectangle, keeping the arrays' capacities; the image map is cleared. */
  function Reset(a: Atlas): (r: Atlas)
    requires a.free.Valid() && a.used.Valid()
    ensures r.Valid() && r.width == a.width && r.height == a.height
    ensures r.free.items == [Rect(0, 0, a.width, a.height)] && r.used.items == [] && r.images == map[]
    ensures r.free.cap >= a.free.cap && r.used.cap == a.used.cap
  {
    var r := a.(free := Add(GrowableArray.Reset(a.free), Rect(0, 0, a.width, a.height)), used := GrowableArray.Reset(a.used), images := map[]);
    assert r.All() == [Rect(0, 0, a.width, a.height)];
    assert AreaSum(r.All()) == a.width * a.height by { assert r.All()[1..] == []; }
    r
  }

  /**
   * `addRect(w, h)`: the first fitting free rectangle is swap-removed and
   * replaced by its split pieces; the placed rectangle is appended to the used list.
   */
  function AddRect(a: Atlas, w: nat, h: nat): (res: (Atlas, Option<Rect>))
    requires a.free.Valid() && a.used.Valid()
    ensures res.0.free.Valid() && res.0.used.Valid()
    ensures res.0.width == a.width && res.0.height == a.height && res.0.images == a.images
    ensures res.1.None? <==> w == 0 || h == 0 || forall j :: 0 <= j < |a.free.items| ==> !CanFit(a.free.items[j], w, h)
    ensures res.1.None? ==> res.0 == a
    ensures res.1.Some? ==> exists i :: 0 <= i < |a.free.items| && res.1.value == Rect(a.free.items[i].x, a.free.items[i].y, w, h)
                              && CanFit(a.free.items[i], w, h) && (forall j :: 0 <= j < i ==> !CanFit(a.free.items[j], w, h))
                              && res.0.free.items == Remove(a.free, i).items + Split(a.free.items[i], w, h).pieces
    ensures res.1.Some? ==> res.0.used.items == a.used.items + [res.1.value]
  {
    if w == 0 || h == 0 then (a, None)
    else match FirstFit(a.free.items, w, h)
      case None => (a, None)
      case Some(i) =>
        var s := Split(a.free.items[i], w, h);
        var free := AddAll(Remove(a.free, i), s.pieces);
        (a.(free := free, used := Add(a.used, s.placed)), Some(s.placed))
  }

  /** Swap-removing slot i drops exactly that rectangle's coverage and area. */
  lemma RemoveAccounting(f: GrowArray<Rect>, i: nat, px: int, py: int)
    requires f.Valid() && i < |f.items|
    ensures CoverCount(Remove(f, i).items, px, py) + CoverCount([f.items[i]], px, py) == CoverCount(f.items, px, py)
    ensures AreaSum(Remove(f, i).items) + f.items[i].Area() == AreaSum(f.items)
  {
    var s := f.items;
    var last := |s| - 1;
    var r := Remove(f, i).items;
    if i < last {
      RemoveShape(s, i);
      assert r == s[..i] + [s[last]] + s[i + 1..last];
      CoverCountAppend(s[..i] + [s[i]] + s[i + 1..last], [s[last]], px, py);
      CoverCountAppend(s[..i] + [s[i]], s[i + 1..last], px, py);
      CoverCountAppend(s[..i], [s[i]], px, py);
      CoverCountAppend(s[..i] + [s[last]], s[i + 1..last], px, py);
      CoverCountAppend(s[..i], [s[last]], px, py);
      AreaSumAppend(s[..i] + [s[i]] + s[i + 1..last], [s[last]]);
      AreaSumAppend(s[..i] + [s[i]], s[i + 1..last]);
      AreaSumAppend(s[..i], [s[i]]);
      AreaSumAppend(s[..i] + [s[last]], s[i + 1..last]);
      AreaSumAppend(s[..i], [s[last]]);
      assert AreaSum([s[last]]) == s[last].Area();
      assert AreaSum([s[i]]) == s[i].Area();
    } else {
      assert s == r + [s[i]];
      CoverCountAppend(r, [s[i]], px, py);
      AreaSumAppend(r, [s[i]]);
    }
  }

  /** `addRect` keeps the free and used rectangles tiling the atlas with the full area. */
  lemma AddRectPreservesValid(a: Atlas, w: nat, h: nat)
    requires a.Valid()
    ensures AddRect(a, w, h).0.Valid()
  {
    var res := AddRect(a, w, h);
    if res.1.Some? {
      var i := FirstFit(a.free.items, w, h).value;
      var sel := a.free.items[i];
      var s := Split(sel, w, h);
      var removed := Remove(a.free, i).items;
      var b := res.0;
      assert b.All() == removed + s.pieces + a.used.items + [s.placed];
      forall px: int, py: int
        ensures CoverCount(b.All(), px, py) == (if 0 <= px < b.width && 0 <= py < b.height then 1 else 0)
      {
        CoverCountAppend(removed + s.pieces + a.used.items, [s.placed], px, py);
        CoverCountAppend(removed + s.pieces, a.used.items, px, py);
        CoverCountAppend(removed, s.pieces, px, py);
        CoverCountAppend([s.placed], s.pieces, px, py);
        CoverCountAppend(a.free.items, a.used.items, px, py);
        SplitTiles(sel, w, h, px, py);
        RemoveAccounting(a.free, i, px, py);
        assert CoverCount([sel], px, py) == if sel.Covers(px, py) then 1 else 0;
      }
      AreaSumAppend(removed + s.pieces + a.used.items, [s.placed]);
      AreaSumAppend(removed + s.pieces, a.used.items);
      AreaSumAppend(removed, s.pieces);
      AreaSumAppend([s.placed], s.pieces);
      AreaSumAppend(a.free.items, a.used.items);
      SplitConservesArea(sel, w, h);
      RemoveAccounting(a.free, i, 0, 0);
      assert AreaSum([s.placed]) == s.placed.Area();
    }
  }

  lemma {:induction false} CoverCountPositive(rs: seq<Rect>, i: nat, px: int, py: int)
    requires i < |rs| && rs[i].Covers(px, py)
    ensures CoverCount(rs, px, py) >= 1
    decreases |rs|
  {
    if i > 0 {
      CoverCountPositive(rs[1..], i - 1, px, py);
    }
  }

  lemma {:induction false} CoverCountTwo(rs: seq<Rect>, i: nat, j: nat, px: int, py: int)
    requires i < j < |rs| && rs[i].Covers(px, py) && rs[j].Covers(px, py)
    ensures CoverCount(rs, px, py) >= 2
    decreases |rs|
  {
    if i > 0 {
      CoverCountTwo(rs[1..], i - 1, j - 1, px, py);
    } else {
      CoverCountPositive(rs[1..], j - 1, px, py);
    }
  }

  /**
   * In a valid atlas no pixel lies in two of the free/used rectangles, and
   * every pixel of every rectangle lies inside the atlas.
   */
  lemma ValidDisjointInside(a: Atlas, i: nat, j: nat, px: int, py: int)
    requires a.Valid() && i < |a.All()| && j < |a.All()|
    ensures a.All()[i].Covers(px, py) ==> 0 <= px < a.width && 0 <= py < a.height
    ensures i != j ==> !(a.All()[i].Covers(px, py) && a.All()[j].Covers(px, py))
  {
    var rs := a.All();
    if rs[i].Covers(px, py) {
      CoverCountPositive(rs, i, px, py);
    }
    if i < j && rs[i].Covers(px, py) && rs[j].Covers(px, py) {
      CoverCountTwo(rs, i, j, px, py);
    }
    if j < i && rs[i].Covers(px, py) && rs[j].Covers(px, py) {
      CoverCountTwo(rs, j, i, px, py);
    }
  }

  /** What `addImage` hands back: the updated atlas and residency, and the image's rectangle. */
  datatype AddImageResult = AddImageResult(atlas: Atlas, resident: map<ImageId, Rect>, rect: Rect)

  /**
   * `addImage`: an image whose atlas bit is set (modelled by `resident`, the
   * per-image atlas state) gets its stored rectangle back. Otherwise an
   * image-sized rectangle is placed; when placement fails the failed assertion
   * does not stop the code and the zero rectangle is recorded instead.
   */
  function AddImage(a: Atlas, resident: map<ImageId, Rect>, img: Image): (r: AddImageResult)
    requires a.free.Valid() && a.used.Valid()
    ensures r.atlas.free.Valid() && r.atlas.used.Valid()
    ensures img.id in resident ==> r == AddImageResult(a, resident, resident[img.id])
    ensures img.id !in resident ==> r.resident == resident[img.id := r.rect] && img.id in r.atlas.images
    ensures img.id !in resident && AddRect(a, img.width, img.height).1.Some? ==>
              r.rect.w == img.width && r.rect.h == img.height && r.atlas.used.items == a.used.items + [r.rect]
    ensures img.id !in resident && AddRect(a, img.width, img.height).1.None? ==>
              r.rect == Rect(0, 0, 0, 0) && r.atlas.free == a.free && r.atlas.used == a.used
  {
    if img.id in resident then AddImageResult(a, resident, resident[img.id])
    else
      var (b, placed) := AddRect(a, img.width, img.height);
      var rect := placed.GetOr(Rect(0, 0, 0, 0));
      var images := if img.id in b.images then b.images else b.images[img.id := rect];
      AddImageResult(b.(images := images), resident[img.id := rect], rect)
  }

  /** A second `addImage` of the same image returns the same rectangle and changes nothing. */
  lemma AddImageIdempotent(a: Atlas, resident: map<ImageId, Rect>, img: Image)
    requires a.free.Valid() && a.used.Valid()
    ensures var r1 := AddImage(a, resident, img);
      AddImage(r1.atlas, r1.resident, img) == r1
  {
  }

  /** `addImage` keeps the atlas tiled. */
  lemma AddImagePreservesValid(a: Atlas, resident: map<ImageId, Rect>, img: Image)
    requires a.Valid()
    ensures AddImage(a, resident, img).atlas.Valid()
  {
    if img.id !in resident {
      AddRectPreservesValid(a, img.width, img.height);
    }
  }
}
