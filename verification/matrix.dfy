/**
 * The canvas affine matrix and matrix stack (NkCanvasMatrix, NkCanvasMatrixStack).
 * A matrix {a,b,c,d,tx,ty} maps (x,y) to (x*a + y*c + tx, x*b + y*d + ty).
 * Entries are reals; rotate takes the cosine/sine pair as parameters instead of
 * evaluating cosf/sinf.
 */
module CanvasMatrix {
  import opened CanvasLimits

  datatype Point = Point(x: real, y: real)

  datatype Matrix = Matrix(a: real, b: real, c: real, d: real, tx: real, ty: real)

  /** `load`: the six components in the order a, b, c, d, tx, ty. */
  function Load(m: seq<real>): (r: Matrix)
    requires |m| == 6
    ensures [r.a, r.b, r.c, r.d, r.tx, r.ty] == m
  {
    Matrix(m[0], m[1], m[2], m[3], m[4], m[5])
  }

  /** `init` and `identity` both load {1,0,0,1,0,0}. */
  function Identity(): Matrix {
    Load([1.0, 0.0, 0.0, 1.0, 0.0, 0.0])
  }

  /** `multiply`: transform a point by the matrix. */
  function Multiply(m: Matrix, p: Point): Point {
    Point(p.x * m.a + p.y * m.c + m.tx, p.x * m.b + p.y * m.d + m.ty)
  }

  /** `translate`: only tx and ty change. */
  function Translate(m: Matrix, x: real, y: real): (r: Matrix)
    ensures r.a == m.a && r.b == m.b && r.c == m.c && r.d == m.d
  {
    m.(tx := m.a * x + m.c * y + m.tx, ty := m.b * x + m.d * y + m.ty)
  }

  /** `rotate` with cr = cos(rad) and sr = sin(rad): the translation is kept. */
  function Rotate(m: Matrix, cr: real, sr: real): (r: Matrix)
    ensures r.tx == m.tx && r.ty == m.ty
  {
    m.(a := cr * m.a + sr * m.c, b := cr * m.b + sr * m.d,
       c := -sr * m.a + cr * m.c, d := -sr * m.b + cr * m.d)
  }

  /** `scale`: only the linear part changes. */
  function Scale(m: Matrix, x: real, y: real): (r: Matrix)
    ensures r.tx == m.tx && r.ty == m.ty
  {
    m.(a := m.a * x, b := m.b * x, c := m.c * y, d := m.d * y)
  }

  /** Under the identity matrix `multiply` leaves every point where it is. */
  lemma IdentityIsNeutral(p: Point)
    ensures Identity() == Matrix(1.0, 0.0, 0.0, 1.0, 0.0, 0.0)
    ensures Multiply(Identity(), p) == p
  {
  }

  /** After `translate(x,y)`, transforming p is transforming p + (x,y) with the old matrix. */
  lemma TranslateComposes(m: Matrix, x: real, y: real, p: Point)
    ensures Multiply(Translate(m, x, y), p) == Multiply(m, Point(p.x + x, p.y + y))
  {
    var r, q := Translate(m, x, y), Point(p.x + x, p.y + y);
    assert (p.x + x) * m.a == p.x * m.a + x * m.a;
    assert (p.y + y) * m.c == p.y * m.c + y * m.c;
    assert (p.x + x) * m.b == p.x * m.b + x * m.b;
    assert (p.y + y) * m.d == p.y * m.d + y * m.d;
    assert Multiply(r, p).x == Multiply(m, q).x;
    assert Multiply(r, p).y == Multiply(m, q).y;
  }

  /** After `scale(x,y)`, transforming p is transforming (p.x*x, p.y*y) with the old matrix. */
  lemma ScaleComposes(m: Matrix, x: real, y: real, p: Point)
    ensures Multiply(Scale(m, x, y), p) == Multiply(m, Point(p.x * x, p.y * y))
  {
    assert p.x * (m.a * x) == (p.x * x) * m.a && p.y * (m.c * y) == (p.y * y) * m.c;
    assert p.x * (m.b * x) == (p.x * x) * m.b && p.y * (m.d * y) == (p.y * y) * m.d;
  }

  /** After `rotate`, transforming p is transforming p rotated by (cr, sr) with the old matrix. */
  lemma RotateComposes(m: Matrix, cr: real, sr: real, p: Point)
    ensures Multiply(Rotate(m, cr, sr), p) == Multiply(m, Point(cr * p.x - sr * p.y, sr * p.x + cr * p.y))
  {
    var r := Rotate(m, cr, sr);
    var q := Point(cr * p.x - sr * p.y, sr * p.x + cr * p.y);
    RotateRow(m.a, m.c, cr, sr, p);
    RotateRow(m.b, m.d, cr, sr, p);
    assert Multiply(r, p).x == Multiply(m, q).x;
    assert Multiply(r, p).y == Multiply(m, q).y;
  }

  /** One row of RotateComposes: the rotated column pair applied to p. */
  lemma RotateRow(u: real, v: real, cr: real, sr: real, p: Point)
    ensures p.x * (cr * u + sr * v) + p.y * (-sr * u + cr * v)
         == (cr * p.x - sr * p.y) * u + (sr * p.x + cr * p.y) * v
  {
    assert p.x * (cr * u + sr * v) == cr * p.x * u + sr * p.x * v;
    assert p.y * (-sr * u + cr * v) == -sr * p.y * u + cr * p.y * v;
    assert (cr * p.x - sr * p.y) * u == cr * p.x * u - sr * p.y * u;
    assert (sr * p.x + cr * p.y) * v == sr * p.x * v + cr * p.y * v;
  }

  /**
   * The stack keeps the saved matrices in `saved`; its length is `depth`.
   * Slots at or above `depth` are never read, so they are not represented.
   */
  datatype MatrixStack = MatrixStack(saved: seq<Matrix>, current: Matrix) {
    function Depth(): nat { |saved| }
    predicate Valid() { |saved| <= MaxMatrixStackDepth }
  }

  /** `init`: the canvas is zero-allocated, so depth starts at 0; `init` loads the identity. */
  function InitStack(): (s: MatrixStack)
    ensures s.Valid() && s.Depth() == 0 && s.current == Identity()
  {
    MatrixStack([], Identity())
  }

  /** `pushMatrix`: saves `current` at `depth` and grows the stack; silently ignored at full depth. */
  function PushMatrix(s: MatrixStack): (r: MatrixStack)
    requires s.Valid()
    ensures r.Valid() && r.current == s.current
    ensures s.Depth() < MaxMatrixStackDepth ==> r.Depth() == s.Depth() + 1 && r.saved[s.Depth()] == s.current && r.saved[..s.Depth()] == s.saved
    ensures s.Depth() == MaxMatrixStackDepth ==> r == s
  {
    if |s.saved| < MaxMatrixStackDepth then s.(saved := s.saved + [s.current]) else s
  }

  /** `popMatrix`: restores the top saved matrix and shrinks the stack; a no-op when empty. */
  function PopMatrix(s: MatrixStack): (r: MatrixStack)
    requires s.Valid()
    ensures r.Valid()
    ensures s.Depth() > 0 ==> r.Depth() == s.Depth() - 1 && r.current == s.saved[s.Depth() - 1] && r.saved == s.saved[..s.Depth() - 1]
    ensures s.Depth() == 0 ==> r == s
  {
    if |s.saved| > 0 then MatrixStack(s.saved[..|s.saved| - 1], s.saved[|s.saved| - 1]) else s
  }

  /** `pushMatrix` then `popMatrix` restores both the current matrix and the depth when the push had room. */
  lemma PushPopRestores(s: MatrixStack)
    requires s.Valid() && s.Depth() < MaxMatrixStackDepth
    ensures PopMatrix(PushMatrix(s)) == s
  {
    assert (s.saved + [s.current])[..|s.saved|] == s.saved;
  }

  /**
   * At full depth the push is dropped, so the following pop restores the
   * previously saved matrix instead of the pushed one and the depth shrinks.
   */
  lemma PushPopAtFullDepth(s: MatrixStack)
    requires s.Valid() && s.Depth() == MaxMatrixStackDepth
    ensures PopMatrix(PushMatrix(s)).current == s.saved[MaxMatrixStackDepth - 1]
    ensures PopMatrix(PushMatrix(s)).Depth() == MaxMatrixStackDepth - 1
  {
  }

  /** The stack's `translate`/`rotate`/`scale`/`loadIdentity` change only the current matrix. */
  function StackTranslate(s: MatrixStack, x: real, y: real): (r: MatrixStack)
    ensures r.saved == s.saved && r.current == Translate(s.current, x, y)
  {
    s.(current := Translate(s.current, x, y))
  }

  function StackRotate(s: MatrixStack, cr: real, sr: real): (r: MatrixStack)
    ensures r.saved == s.saved && r.current == Rotate(s.current, cr, sr)
  {
    s.(current := Rotate(s.current, cr, sr))
  }

  function StackScale(s: MatrixStack, x: real, y: real): (r: MatrixStack)
    ensures r.saved == s.saved && r.current == Scale(s.current, x, y)
  {
    s.(current := Scale(s.current, x, y))
  }

  function LoadIdentity(s: MatrixStack): (r: MatrixStack)
    ensures r.saved == s.saved && r.current == Identity()
  {
    s.(current := Identity())
  }
}
