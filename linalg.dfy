/** The small part of glm and of Assimp's math types that the animation
    pipeline relies on, over real numbers.  Matrices are stored as glm
    stores them: four columns, `m[c][r]` being column `c`, row `r`.
    Floating-point rounding is not modelled. */
module LinAlg {

  datatype Vec2 = Vec2(x: real, y: real)
  datatype Vec3 = Vec3(x: real, y: real, z: real)
  datatype Vec4 = Vec4(x: real, y: real, z: real, w: real)

  /** glm::quat, stored as (w, x, y, z). */
  datatype Quat = Quat(w: real, x: real, y: real, z: real)

  /** glm::mat4: four columns. */
  datatype Mat4 = Mat4(c0: Vec4, c1: Vec4, c2: Vec4, c3: Vec4)

  /** Assimp's aiMatrix4x4: four rows a, b, c, d; `a.y` is the entry a2. */
  datatype AiMatrix = AiMatrix(a: Vec4, b: Vec4, c: Vec4, d: Vec4)

  const Zero3 := Vec3(0.0, 0.0, 0.0)
  const One3 := Vec3(1.0, 1.0, 1.0)

  function Add3(u: Vec3, v: Vec3): Vec3 {
    Vec3(u.x + v.x, u.y + v.y, u.z + v.z)
  }

  function Scale3(u: Vec3, k: real): Vec3 {
    Vec3(u.x * k, u.y * k, u.z * k)
  }

  /** glm::mix for vectors: x * (1 - a) + y * a. */
  function Mix3(u: Vec3, v: Vec3, a: real): (r: Vec3)
    ensures a == 0.0 ==> r == u
    ensures a == 1.0 ==> r == v
    ensures u == v ==> r == u
  {
    Add3(Scale3(u, 1.0 - a), Scale3(v, a))
  }

  function Entry(v: Vec4, i: int): real
    requires 0 <= i < 4
  {
    if i == 0 then v.x else if i == 1 then v.y else if i == 2 then v.z else v.w
  }

  function Column(m: Mat4, c: int): Vec4
    requires 0 <= c < 4
  {
    if c == 0 then m.c0 else if c == 1 then m.c1 else if c == 2 then m.c2 else m.c3
  }

  /** m[c][r] in glm's notation. */
  function At(m: Mat4, c: int, r: int): real
    requires 0 <= c < 4 && 0 <= r < 4
  {
    Entry(Column(m, c), r)
  }

  function AiRow(m: AiMatrix, r: int): Vec4
    requires 0 <= r < 4
  {
    if r == 0 then m.a else if r == 1 then m.b else if r == 2 then m.c else m.d
  }

  /** Row r, column c of an Assimp matrix. */
  function AiAt(m: AiMatrix, r: int, c: int): real
    requires 0 <= r < 4 && 0 <= c < 4
  {
    Entry(AiRow(m, r), c)
  }

  const Identity := Mat4(Vec4(1.0, 0.0, 0.0, 0.0), Vec4(0.0, 1.0, 0.0, 0.0),
                         Vec4(0.0, 0.0, 1.0, 0.0), Vec4(0.0, 0.0, 0.0, 1.0))

  /** The parts of glm whose floating-point numerics this model does not
      reproduce: the matrix product and the quaternion functions
      glm::normalize, glm::slerp and glm::toMat4.  They are given as
      functions, so every claim made about them holds whatever they compute. */
  datatype Glm = Glm(mul: (Mat4, Mat4) -> Mat4, normalize: Quat -> Quat,
                     slerp: (Quat, Quat, real) -> Quat, toMat4: Quat -> Mat4)

  /** glm::translate(glm::mat4(1.0f), v). */
  function Translate(v: Vec3): Mat4 {
    Mat4(Identity.c0, Identity.c1, Identity.c2, Vec4(v.x, v.y, v.z, 1.0))
  }

  /** glm::scale(glm::mat4(1.0f), v). */
  function ScaleMatrix(v: Vec3): Mat4 {
    Mat4(Vec4(v.x, 0.0, 0.0, 0.0), Vec4(0.0, v.y, 0.0, 0.0),
         Vec4(0.0, 0.0, v.z, 0.0), Vec4(0.0, 0.0, 0.0, 1.0))
  }

  /** glm::vec3(m[3]): the translation part of an affine transform. */
  function TranslationOf(m: Mat4): Vec3 {
    Vec3(m.c3.x, m.c3.y, m.c3.z)
  }

  /** convertMatrix: Assimp stores rows, glm stores columns, so the entry in
      row r, column c of the source lands at to[c][r]. */
  function ConvertMatrix(from: AiMatrix): (to: Mat4)
    ensures forall c, r :: 0 <= c < 4 && 0 <= r < 4 ==> At(to, c, r) == AiAt(from, r, c)
  {
    Mat4(Vec4(from.a.x, from.b.x, from.c.x, from.d.x),
         Vec4(from.a.y, from.b.y, from.c.y, from.d.y),
         Vec4(from.a.z, from.b.z, from.c.z, from.d.z),
         Vec4(from.a.w, from.b.w, from.c.w, from.d.w))
  }

  /** Translating by v and reading the translation back gives v. */
  lemma TranslationOfTranslate(v: Vec3)
    ensures TranslationOf(Translate(v)) == v
  {
  }
}
