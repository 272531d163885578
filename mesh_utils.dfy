/** The mesh loaders (source/common/mesh/mesh-utils.cpp): vertex and
    element buffers built from imported meshes, bone weights packed into
    four slots per vertex, bone ids handed out as bones are met, OBJ corner
    de-duplication, and the sphere's index grid. */
module MeshUtils {
  import opened LinAlg
  import opened Wrappers
  import Importer
  import opened Clip

  /** our::Color, as the channel values handed to the 8-bit conversion. */
  datatype Color = Color(r: real, g: real, b: real, a: real)

  const White := Color(255.0, 255.0, 255.0, 255.0)

  type Ids = s: seq<int> | |s| == 4 witness [-1, -1, -1, -1]
  type Weights = s: seq<real> | |s| == 4 witness [0.0, 0.0, 0.0, 0.0]

  /** The four bone slots of a vertex (glm::ivec4 boneIDs, glm::vec4 weights). */
  datatype BoneSlots = BoneSlots(ids: Ids, weights: Weights)

  /** The slots every skeletal vertex starts with: no bone, no weight. */
  const Unbound := BoneSlots([-1, -1, -1, -1], [0.0, 0.0, 0.0, 0.0])

  /** our::Vertex */
  datatype Vertex = Vertex(position: Vec3, color: Color, texCoord: Vec2, normal: Vec3, bones: BoneSlots)

  /** our::Mesh: the vertex buffer and the element (index) buffer. */
  datatype Mesh = Mesh(vertices: seq<Vertex>, elements: seq<nat>)

  /** The first slot whose id is negative, if any. */
  function FirstFree(ids: Ids): (r: Option<nat>)
    ensures r.Some? ==> r.value < 4 && ids[r.value] < 0 && forall j :: 0 <= j < r.value ==> 0 <= ids[j]
    ensures r.None? <==> forall j :: 0 <= j < 4 ==> 0 <= ids[j]
  {
    if ids[0] < 0 then Some(0)
    else if ids[1] < 0 then Some(1)
    else if ids[2] < 0 then Some(2)
    else if ids[3] < 0 then Some(3)
    else None
  }

  /** The vertex after setVertexBoneData(vertex, id, weight). */
  function WithBone(v: Vertex, id: int, weight: real): Vertex {
    match FirstFree(v.bones.ids)
    case None => v
    case Some(i) => v.(bones := BoneSlots(v.bones.ids[i := id], v.bones.weights[i := weight]))
  }

  /** (id, weight) goes into the first slot whose id is negative, and the
      other slots keep their contents; when all four slots hold a bone the
      vertex is unchanged.  Position, colour, texture coordinate and normal
      are never touched. */
  lemma WithBoneFillsFirstFree(v: Vertex, id: int, weight: real)
    ensures var r := WithBone(v, id, weight);
      && r.position == v.position && r.color == v.color && r.texCoord == v.texCoord && r.normal == v.normal
      && ((forall j :: 0 <= j < 4 ==> 0 <= v.bones.ids[j]) ==> r == v)
      && forall i :: 0 <= i < 4 && v.bones.ids[i] < 0 && (forall j :: 0 <= j < i ==> 0 <= v.bones.ids[j]) ==>
           && r.bones.ids[i] == id && r.bones.weights[i] == weight
           && forall j :: 0 <= j < 4 && j != i ==> r.bones.ids[j] == v.bones.ids[j] && r.bones.weights[j] == v.bones.weights[j]
  {
  }

  /** setVertexBoneData: scans the four slots and fills the first free one. */
  method SetVertexBoneData(vertex: Vertex, boneId: int, weight: real) returns (v: Vertex)
    ensures v == WithBone(vertex, boneId, weight)
  {
    v := vertex;
    var i := 0;
    while i < 4
      invariant 0 <= i <= 4 && v == vertex
      invariant forall j :: 0 <= j < i ==> 0 <= vertex.bones.ids[j]
    {
      if v.bones.ids[i] < 0 {
        v := v.(bones := BoneSlots(v.bones.ids[i := boneId], v.bones.weights[i := weight]));
        return;
      }
      i := i + 1;
    }
  }

  /** The used slots come first: once a slot is free, so are all after it. */
  ghost predicate Packed(s: BoneSlots) {
    forall i, j :: 0 <= i < j < 4 && s.ids[i] < 0 ==> s.ids[j] < 0
  }

  /** Filling a packed vertex with a real (non-negative) bone id keeps it
      packed. */
  lemma WithBoneKeepsPacked(v: Vertex, id: int, weight: real)
    requires Packed(v.bones) && 0 <= id
    ensures Packed(WithBone(v, id, weight).bones)
  {
  }

  /** The vertex built from vertex i of an imported mesh: absent normals,
      texture coordinates or colours default to (0, 1, 0), (0, 0) and white;
      `slots` are the bone slots it starts with. */
  function ImportedVertex(m: Importer.WellFormedMesh, i: nat, slots: BoneSlots): (v: Vertex)
    requires i < |m.vertices|
    ensures v.position == m.vertices[i] && v.bones == slots
    ensures m.normals.None? ==> v.normal == Vec3(0.0, 1.0, 0.0)
    ensures m.normals.Some? ==> v.normal == m.normals.value[i]
    ensures m.textureCoords.None? ==> v.texCoord == Vec2(0.0, 0.0)
    ensures m.textureCoords.Some? ==> v.texCoord == Vec2(m.textureCoords.value[i].x, m.textureCoords.value[i].y)
    ensures m.colors.None? ==> v.color == White
    ensures m.colors.Some? ==> v.color == Color(m.colors.value[i].r * 255.0, m.colors.value[i].g * 255.0,
                                                m.colors.value[i].b * 255.0, m.colors.value[i].a * 255.0)
  {
    var color := if m.colors.Some? then
        var c := m.colors.value[i];
        Color(c.r * 255.0, c.g * 255.0, c.b * 255.0, c.a * 255.0)
      else White;
    var tex := if m.textureCoords.Some? then
        Vec2(m.textureCoords.value[i].x, m.textureCoords.value[i].y)
      else Vec2(0.0, 0.0);
    var normal := if m.normals.Some? then m.normals.value[i] else Vec3(0.0, 1.0, 0.0);
    Vertex(m.vertices[i], color, tex, normal, slots)
  }

  function MeshVertices(m: Importer.WellFormedMesh, slots: BoneSlots): (vs: seq<Vertex>)
    ensures |vs| == |m.vertices|
    ensures forall i :: 0 <= i < |m.vertices| ==> vs[i] == ImportedVertex(m, i, slots)
  {
    seq(|m.vertices|, i requires 0 <= i < |m.vertices| => ImportedVertex(m, i, slots))
  }

  /** The indices of all faces, face after face. */
  function FaceIndices(faces: seq<seq<nat>>): seq<nat>
    decreases |faces|
  {
    if faces == [] then [] else FaceIndices(faces[..|faces| - 1]) + faces[|faces| - 1]
  }

  function Offset(indices: seq<nat>, base: nat): (r: seq<nat>)
    ensures |r| == |indices|
    ensures forall k :: 0 <= k < |indices| ==> r[k] == base + indices[k]
  {
    seq(|indices|, k requires 0 <= k < |indices| => base + indices[k])
  }

  /** The number of vertices of all meshes. */
  function VertexCount(meshes: seq<Importer.WellFormedMesh>): nat
    decreases |meshes|
  {
    if meshes == [] then 0 else VertexCount(meshes[..|meshes| - 1]) + |meshes[|meshes| - 1].vertices|
  }

  /** The element buffer of a scene: each mesh's face indices shifted by the
      number of vertices of the meshes before it. */
  function Elements(meshes: seq<Importer.WellFormedMesh>): seq<nat>
    decreases |meshes|
  {
    if meshes == [] then []
    else
      var init := meshes[..|meshes| - 1];
      Elements(init) + Offset(FaceIndices(meshes[|meshes| - 1].faces), VertexCount(init))
  }

  /** The vertex buffer loadMesh builds: every mesh's vertices, in order. */
  function PlainVertices(meshes: seq<Importer.WellFormedMesh>, slots: BoneSlots): seq<Vertex>
    decreases |meshes|
  {
    if meshes == [] then []
    else PlainVertices(meshes[..|meshes| - 1], slots) + MeshVertices(meshes[|meshes| - 1], slots)
  }

  /** A scene both loaders accept: present, complete and with a root node. */
  predicate Loadable(scene: Option<Importer.Scene>) {
    scene.Some? && !scene.value.incomplete && scene.value.root.Some?
  }

  lemma {:induction false} PlainVerticesCount(meshes: seq<Importer.WellFormedMesh>, slots: BoneSlots)
    ensures |PlainVertices(meshes, slots)| == VertexCount(meshes)
    decreases |meshes|
  {
    if meshes != [] {
      PlainVerticesCount(meshes[..|meshes| - 1], slots);
    }
  }

  /** Vertex i of mesh k sits in the buffer after the vertices of the
      meshes before k. */
  lemma {:induction false} PlainVerticesAt(meshes: seq<Importer.WellFormedMesh>, slots: BoneSlots, k: nat, i: nat)
    requires k < |meshes| && i < |meshes[k].vertices|
    ensures VertexCount(meshes[..k]) + i < |PlainVertices(meshes, slots)|
    ensures PlainVertices(meshes, slots)[VertexCount(meshes[..k]) + i] == ImportedVertex(meshes[k], i, slots)
    decreases |meshes|
  {
    var init := meshes[..|meshes| - 1];
    PlainVerticesCount(meshes, slots);
    PlainVerticesCount(init, slots);
    if k == |meshes| - 1 {
      assert meshes[..k] == init;
    } else {
      assert init[..k] == meshes[..k];
      PlainVerticesAt(init, slots, k, i);
      VertexCountPrefix(meshes, k);
    }
  }

  /** Earlier meshes hold no more vertices than a longer prefix. */
  lemma {:induction false} VertexCountPrefix(meshes: seq<Importer.WellFormedMesh>, k: nat)
    requires k < |meshes|
    ensures VertexCount(meshes[..k]) + |meshes[k].vertices| <= VertexCount(meshes)
    decreases |meshes|
  {
    var init := meshes[..|meshes| - 1];
    if k == |meshes| - 1 {
      assert meshes[..k] == init;
    } else {
      assert init[..k] == meshes[..k];
      VertexCountPrefix(init, k);
    }
  }

  /** Element j of mesh k is that mesh's j-th face index shifted by the
      vertices of the meshes before k. */
  lemma {:induction false} ElementsAt(meshes: seq<Importer.WellFormedMesh>, k: nat, j: nat)
    requires k < |meshes| && j < |FaceIndices(meshes[k].faces)|
    ensures |Elements(meshes[..k])| + j < |Elements(meshes)|
    ensures Elements(meshes)[|Elements(meshes[..k])| + j] == VertexCount(meshes[..k]) + FaceIndices(meshes[k].faces)[j]
    decreases |meshes|
  {
    var init := meshes[..|meshes| - 1];
    if k == |meshes| - 1 {
      assert meshes[..k] == init;
    } else {
      assert init[..k] == meshes[..k];
      ElementsAt(init, k, j);
    }
  }

  /** Every face index of every mesh names one of that mesh's vertices. */
  ghost predicate FacesInRange(meshes: seq<Importer.WellFormedMesh>) {
    forall k, j :: 0 <= k < |meshes| && 0 <= j < |FaceIndices(meshes[k].faces)| ==>
      FaceIndices(meshes[k].faces)[j] < |meshes[k].vertices|
  }

  /** When each mesh's faces index its own vertices, every element of the
      combined buffer indexes the combined vertex buffer. */
  lemma {:induction false} ElementsInRange(meshes: seq<Importer.WellFormedMesh>)
    requires FacesInRange(meshes)
    ensures forall e :: e in Elements(meshes) ==> e < VertexCount(meshes)
    decreases |meshes|
  {
    if meshes != [] {
      var init := meshes[..|meshes| - 1];
      var last := meshes[|meshes| - 1];
      assert FacesInRange(init) by {
        forall k, j | 0 <= k < |init| && 0 <= j < |FaceIndices(init[k].faces)|
          ensures FaceIndices(init[k].faces)[j] < |init[k].vertices|
        {
          assert init[k] == meshes[k];
        }
      }
      ElementsInRange(init);
      var tail := Offset(FaceIndices(last.faces), VertexCount(init));
      forall e | e in tail
        ensures e < VertexCount(meshes)
      {
        var j :| 0 <= j < |tail| && tail[j] == e;
        assert FaceIndices(meshes[|meshes| - 1].faces)[j] < |meshes[|meshes| - 1].vertices|;
      }
    }
  }

  /** The vertex loop of both loaders: appends the mesh's vertices. */
  method AppendMeshVertices(vertices: seq<Vertex>, m: Importer.WellFormedMesh, slots: BoneSlots)
    returns (vs: seq<Vertex>)
    ensures vs == vertices + MeshVertices(m, slots)
  {
    vs := vertices;
    for i := 0 to |m.vertices|
      invariant vs == vertices + MeshVertices(m, slots)[..i]
    {
      var color := White;
      if m.colors.Some? {
        var c := m.colors.value[i];
        color := Color(c.r * 255.0, c.g * 255.0, c.b * 255.0, c.a * 255.0);
      }
      var tex := Vec2(0.0, 0.0);
      if m.textureCoords.Some? {
        tex := Vec2(m.textureCoords.value[i].x, m.textureCoords.value[i].y);
      }
      var normal := Vec3(0.0, 1.0, 0.0);
      if m.normals.Some? {
        normal := m.normals.value[i];
      }
      vs := vs + [Vertex(m.vertices[i], color, tex, normal, slots)];
      assert MeshVertices(m, slots)[..i + 1] == MeshVertices(m, slots)[..i] + [ImportedVertex(m, i, slots)];
    }
    assert MeshVertices(m, slots)[..|m.vertices|] == MeshVertices(m, slots);
  }

  /** The face loop of both loaders: appends every face index shifted by
      `base`. */
  method AppendMeshElements(elements: seq<nat>, faces: seq<seq<nat>>, base: nat) returns (es: seq<nat>)
    ensures es == elements + Offset(FaceIndices(faces), base)
  {
    es := elements;
    for i := 0 to |faces|
      invariant es == elements + Offset(FaceIndices(faces[..i]), base)
    {
      var face := faces[i];
      assert faces[..i + 1][..i] == faces[..i];
      for j := 0 to |face|
        invariant es == elements + Offset(FaceIndices(faces[..i]) + face[..j], base)
      {
        es := es + [base + face[j]];
        assert face[..j + 1] == face[..j] + [face[j]];
        assert Offset(FaceIndices(faces[..i]) + face[..j + 1], base)
            == Offset(FaceIndices(faces[..i]) + face[..j], base) + [base + face[j]];
      }
      assert face[..|face|] == face;
    }
    assert faces[..|faces|] == faces;
  }

  /** loadMesh: the scene's meshes, concatenated; a missing, incomplete or
      rootless scene gives no mesh.  `slots` are the bone slots of a
      default-constructed vertex, which this loader never sets. */
  method LoadMesh(path: string, read: Importer.Reader, slots: BoneSlots) returns (mesh: Option<Mesh>)
    ensures !Loadable(read(path)) ==> mesh == None
    ensures Loadable(read(path)) ==>
      var meshes := read(path).value.meshes;
      mesh == Some(Mesh(PlainVertices(meshes, slots), Elements(meshes)))
  {
    var scene := read(path);
    if !Loadable(scene) {
      return None;
    }
    var meshes := scene.value.meshes;
    var vertices: seq<Vertex> := [];
    var elements: seq<nat> := [];
    for m := 0 to |meshes|
      invariant vertices == PlainVertices(meshes[..m], slots)
      invariant elements == Elements(meshes[..m])
    {
      assert meshes[..m + 1][..m] == meshes[..m];
      PlainVerticesCount(meshes[..m], slots);
      var baseVertex := |vertices|;
      vertices := AppendMeshVertices(vertices, meshes[m], slots);
      elements := AppendMeshElements(elements, meshes[m].faces, baseVertex);
    }
    assert meshes[..|meshes|] == meshes;
    return Some(Mesh(vertices, elements));
  }

  /** What loadSkeletalMesh has built so far: the vertex buffer, the shared
      bone table, and the local bone counter. */
  datatype Skin = Skin(vertices: seq<Vertex>, table: map<string, BoneInfo>, counter: int)

  /** The weight loop of one bone: each weight whose shifted vertex index is
      inside the buffer is set on that vertex; the others are skipped. */
  function ApplyWeights(vs: seq<Vertex>, ws: seq<Importer.VertexWeight>, base: nat, id: int): (r: seq<Vertex>)
    ensures |r| == |vs|
    decreases |ws|
  {
    if ws == [] then vs
    else
      var prev := ApplyWeights(vs, ws[..|ws| - 1], base, id);
      var w := ws[|ws| - 1];
      var vertexId := w.vertexId + base;
      if vertexId < |prev| then prev[vertexId := WithBone(prev[vertexId], id, w.weight)] else prev
  }

  /** One bone: a new name is stored with the counter as its id and its
      converted offset matrix, and the counter moves on; a known name keeps
      its stored id.  Then the bone's weights are applied. */
  function AddBone(s: Skin, b: Importer.AiBone, base: nat): Skin {
    if b.name in s.table then
      Skin(ApplyWeights(s.vertices, b.weights, base, s.table[b.name].id), s.table, s.counter)
    else
      Skin(ApplyWeights(s.vertices, b.weights, base, s.counter),
           s.table[b.name := BoneInfo(s.counter, ConvertMatrix(b.offsetMatrix))], s.counter + 1)
  }

  function AddBones(s: Skin, bones: seq<Importer.AiBone>, base: nat): Skin
    decreases |bones|
  {
    if bones == [] then s else AddBone(AddBones(s, bones[..|bones| - 1], base), bones[|bones| - 1], base)
  }

  /** One mesh of loadSkeletalMesh: its vertices with empty slots, then its
      bones, with weights indexing from the mesh's first vertex. */
  function AddSkinnedMesh(s: Skin, m: Importer.WellFormedMesh): Skin {
    AddBones(s.(vertices := s.vertices + MeshVertices(m, Unbound)), m.bones, |s.vertices|)
  }

  function SkinAll(s: Skin, meshes: seq<Importer.WellFormedMesh>): Skin
    decreases |meshes|
  {
    if meshes == [] then s else AddSkinnedMesh(SkinAll(s, meshes[..|meshes| - 1]), meshes[|meshes| - 1])
  }

  /** The bones a mesh offers to the table, in order. */
  function BoneCandidates(bones: seq<Importer.AiBone>): (cs: seq<Candidate>)
    ensures |cs| == |bones|
    ensures forall i :: 0 <= i < |bones| ==> cs[i] == Candidate(bones[i].name, ConvertMatrix(bones[i].offsetMatrix))
  {
    seq(|bones|, i requires 0 <= i < |bones| => Candidate(bones[i].name, ConvertMatrix(bones[i].offsetMatrix)))
  }

  /** The bones of all meshes, mesh after mesh. */
  function MeshCandidates(meshes: seq<Importer.WellFormedMesh>): seq<Candidate>
    decreases |meshes|
  {
    if meshes == [] then []
    else MeshCandidates(meshes[..|meshes| - 1]) + BoneCandidates(meshes[|meshes| - 1].bones)
  }

  /** The bone loop registers exactly as the clip loader's Register does. */
  lemma {:induction false} AddBonesRegisters(s: Skin, bones: seq<Importer.AiBone>, base: nat)
    ensures var r := AddBones(s, bones, base);
      (r.table, r.counter) == Register(s.table, BoneCandidates(bones), s.counter)
      && |r.vertices| == |s.vertices|
    decreases |bones|
  {
    if bones != [] {
      AddBonesRegisters(s, bones[..|bones| - 1], base);
      assert BoneCandidates(bones)[..|bones| - 1] == BoneCandidates(bones[..|bones| - 1]);
    }
  }

  /** Across all meshes, the table and counter of loadSkeletalMesh are
      those of registering every mesh's bones in order, starting from the
      given counter. */
  lemma {:induction false} SkinAllRegisters(s: Skin, meshes: seq<Importer.WellFormedMesh>)
    ensures var r := SkinAll(s, meshes);
      (r.table, r.counter) == Register(s.table, MeshCandidates(meshes), s.counter)
      && |r.vertices| == |s.vertices| + VertexCount(meshes)
    decreases |meshes|
  {
    if meshes != [] {
      var init := meshes[..|meshes| - 1];
      var last := meshes[|meshes| - 1];
      SkinAllRegisters(s, init);
      var p := SkinAll(s, init);
      AddBonesRegisters(p.(vertices := p.vertices + MeshVertices(last, Unbound)), last.bones, |p.vertices|);
      RegisterAppend(s.table, MeshCandidates(init), BoneCandidates(last.bones), s.counter);
    }
  }

  /** Bone ids come from the loader's own counter, which starts at 0 however
      many entries the table already holds: the first bone name the table
      lacks gets id 0 even when an existing entry has id 0 already. */
  lemma SkinIdsStartAtZero(table: map<string, BoneInfo>, meshes: seq<Importer.WellFormedMesh>)
    requires MeshCandidates(meshes) != [] && MeshCandidates(meshes)[0].name !in table
    ensures MeshCandidates(meshes)[0].name in SkinAll(Skin([], table, 0), meshes).table
    ensures SkinAll(Skin([], table, 0), meshes).table[MeshCandidates(meshes)[0].name]
            == BoneInfo(0, MeshCandidates(meshes)[0].offset)
  {
    SkinAllRegisters(Skin([], table, 0), meshes);
    RegisterFirstNew(table, MeshCandidates(meshes), 0);
  }

  /** Setting weights changes no vertex's position, colour, texture
      coordinate or normal. */
  lemma {:induction false} ApplyWeightsKeepsGeometry(vs: seq<Vertex>, ws: seq<Importer.VertexWeight>, base: nat, id: int, i: nat)
    requires i < |vs|
    ensures SameGeometry(ApplyWeights(vs, ws, base, id)[i], vs[i])
    decreases |ws|
  {
    if ws != [] {
      ApplyWeightsKeepsGeometry(vs, ws[..|ws| - 1], base, id, i);
      var p := ApplyWeights(vs, ws[..|ws| - 1], base, id);
      var w := ws[|ws| - 1];
      if w.vertexId + base == i {
        WithBoneKeepsGeometry(p[i], id, w.weight);
      }
    }
  }

  lemma WithBoneKeepsGeometry(v: Vertex, id: int, weight: real)
    ensures SameGeometry(WithBone(v, id, weight), v)
  {
  }

  predicate SameGeometry(u: Vertex, v: Vertex) {
    u.position == v.position && u.color == v.color && u.texCoord == v.texCoord && u.normal == v.normal
  }

  lemma {:induction false} AddBonesKeepsGeometry(s: Skin, bones: seq<Importer.AiBone>, base: nat, i: nat)
    requires i < |s.vertices|
    ensures i < |AddBones(s, bones, base).vertices|
    ensures SameGeometry(AddBones(s, bones, base).vertices[i], s.vertices[i])
    decreases |bones|
  {
    AddBonesRegisters(s, bones, base);
    if bones != [] {
      AddBonesKeepsGeometry(s, bones[..|bones| - 1], base, i);
      var p := AddBones(s, bones[..|bones| - 1], base);
      var b := bones[|bones| - 1];
      var id := if b.name in p.table then p.table[b.name].id else p.counter;
      ApplyWeightsKeepsGeometry(p.vertices, b.weights, base, id, i);
    }
  }

  /** The skeletal buffer holds the same positions, colours, texture
      coordinates and normals as loadMesh's buffer would; only the bone
      slots differ. */
  lemma {:induction false} SkinAllGeometry(s: Skin, meshes: seq<Importer.WellFormedMesh>, i: nat)
    requires i < |s.vertices + PlainVertices(meshes, Unbound)|
    ensures i < |SkinAll(s, meshes).vertices|
    ensures SameGeometry(SkinAll(s, meshes).vertices[i], (s.vertices + PlainVertices(meshes, Unbound))[i])
    decreases |meshes|
  {
    SkinAllRegisters(s, meshes);
    PlainVerticesCount(meshes, Unbound);
    if meshes != [] {
      var init := meshes[..|meshes| - 1];
      var last := meshes[|meshes| - 1];
      var p := SkinAll(s, init);
      SkinAllRegisters(s, init);
      PlainVerticesCount(init, Unbound);
      var q := p.(vertices := p.vertices + MeshVertices(last, Unbound));
      AddBonesKeepsGeometry(q, last.bones, |p.vertices|, i);
      if i < |p.vertices| {
        SkinAllGeometry(s, init, i);
      }
    }
  }

  /** A vertex no weight points at is left as it was; so is every vertex
      when all weights point past the buffer. */
  lemma {:induction false} ApplyWeightsOnlyTargets(vs: seq<Vertex>, ws: seq<Importer.VertexWeight>, base: nat, id: int, i: nat)
    requires i < |vs| && forall k :: 0 <= k < |ws| ==> ws[k].vertexId + base != i
    ensures ApplyWeights(vs, ws, base, id)[i] == vs[i]
    decreases |ws|
  {
    if ws != [] {
      var init := ws[..|ws| - 1];
      assert forall k :: 0 <= k < |init| ==> init[k] == ws[k];
      ApplyWeightsOnlyTargets(vs, init, base, id, i);
    }
  }

  /** Applying weights of a non-negative id keeps every vertex packed. */
  lemma {:induction false} ApplyWeightsKeepsPacked(vs: seq<Vertex>, ws: seq<Importer.VertexWeight>, base: nat, id: int)
    requires 0 <= id && AllPacked(vs)
    ensures AllPacked(ApplyWeights(vs, ws, base, id))
    decreases |ws|
  {
    if ws != [] {
      ApplyWeightsKeepsPacked(vs, ws[..|ws| - 1], base, id);
      var p := ApplyWeights(vs, ws[..|ws| - 1], base, id);
      var w := ws[|ws| - 1];
      if w.vertexId + base < |p| {
        WithBoneKeepsPacked(p[w.vertexId + base], id, w.weight);
      }
    }
  }

  ghost predicate AllPacked(vs: seq<Vertex>) {
    forall i :: 0 <= i < |vs| ==> Packed(vs[i].bones)
  }

  ghost predicate SkinValid(s: Skin) {
    AllPacked(s.vertices) && IdsNonNegative(s.table) && 0 <= s.counter
  }

  lemma {:induction false} AddBonesKeepsPacked(s: Skin, bones: seq<Importer.AiBone>, base: nat)
    requires SkinValid(s)
    ensures SkinValid(AddBones(s, bones, base))
    decreases |bones|
  {
    if bones != [] {
      AddBonesKeepsPacked(s, bones[..|bones| - 1], base);
      var p := AddBones(s, bones[..|bones| - 1], base);
      var b := bones[|bones| - 1];
      var id := if b.name in p.table then p.table[b.name].id else p.counter;
      ApplyWeightsKeepsPacked(p.vertices, b.weights, base, id);
    }
  }

  /** Every skeletal vertex keeps its used slots at the front, when the
      table's ids are non-negative. */
  lemma {:induction false} SkinAllPacked(s: Skin, meshes: seq<Importer.WellFormedMesh>)
    requires SkinValid(s)
    ensures SkinValid(SkinAll(s, meshes))
    decreases |meshes|
  {
    if meshes != [] {
      var init := meshes[..|meshes| - 1];
      var last := meshes[|meshes| - 1];
      SkinAllPacked(s, init);
      var p := SkinAll(s, init);
      var q := p.(vertices := p.vertices + MeshVertices(last, Unbound));
      assert AllPacked(q.vertices) by {
        forall i | 0 <= i < |q.vertices|
          ensures Packed(q.vertices[i].bones)
        {
          if i >= |p.vertices| {
            assert q.vertices[i] == MeshVertices(last, Unbound)[i - |p.vertices|];
          }
        }
      }
      AddBonesKeepsPacked(q, last.bones, |p.vertices|);
    }
  }

  /** The weight loop of one bone. */
  method ApplyBoneWeights(vertices: seq<Vertex>, weights: seq<Importer.VertexWeight>, base: nat, boneId: int)
    returns (vs: seq<Vertex>)
    ensures vs == ApplyWeights(vertices, weights, base, boneId)
  {
    vs := vertices;
    for w := 0 to |weights|
      invariant vs == ApplyWeights(vertices, weights[..w], base, boneId)
    {
      assert weights[..w + 1][..w] == weights[..w];
      var vertexId := weights[w].vertexId + base;
      var weight := weights[w].weight;
      if vertexId < |vs| {
        var v := SetVertexBoneData(vs[vertexId], boneId, weight);
        vs := vs[vertexId := v];
      }
    }
    assert weights[..|weights|] == weights;
  }

  /** The bone loop of one mesh: registers each bone in the shared table and
      applies its weights. */
  method ProcessBones(vertices: seq<Vertex>, bones: seq<Importer.AiBone>, base: nat, table: BoneTable, counter: int)
    returns (vs: seq<Vertex>, boneCounter: int)
    modifies table
    ensures Skin(vs, table.entries, boneCounter) == AddBones(Skin(vertices, old(table.entries), counter), bones, base)
  {
    vs, boneCounter := vertices, counter;
    ghost var start := Skin(vertices, table.entries, counter);
    for b := 0 to |bones|
      invariant Skin(vs, table.entries, boneCounter) == AddBones(start, bones[..b], base)
    {
      assert bones[..b + 1][..b] == bones[..b];
      var boneId := -1;
      var boneName := bones[b].name;
      if boneName !in table.entries {
        table.entries := table.entries[boneName := BoneInfo(boneCounter, ConvertMatrix(bones[b].offsetMatrix))];
        boneId := boneCounter;
        boneCounter := boneCounter + 1;
      } else {
        boneId := table.entries[boneName].id;
      }
      vs := ApplyBoneWeights(vs, bones[b].weights, base, boneId);
    }
    assert bones[..|bones|] == bones;
  }

  /** loadSkeletalMesh: like loadMesh, but every vertex starts with empty
      bone slots, and each mesh's bones are registered in the caller's
      table (new names numbered by a counter local to this call, starting
      at 0) and their weights set on the mesh's vertices. */
  method LoadSkeletalMesh(path: string, read: Importer.Reader, table: BoneTable) returns (mesh: Option<Mesh>)
    modifies table
    ensures !Loadable(read(path)) ==> mesh == None && table.entries == old(table.entries)
    ensures Loadable(read(path)) ==>
      var meshes := read(path).value.meshes;
      var r := SkinAll(Skin([], old(table.entries), 0), meshes);
      mesh == Some(Mesh(r.vertices, Elements(meshes))) && table.entries == r.table
  {
    var scene := read(path);
    if !Loadable(scene) {
      return None;
    }
    var meshes := scene.value.meshes;
    var vertices: seq<Vertex> := [];
    var elements: seq<nat> := [];
    var boneCounter := 0;
    ghost var start := Skin([], table.entries, 0);
    for m := 0 to |meshes|
      invariant Skin(vertices, table.entries, boneCounter) == SkinAll(start, meshes[..m])
      invariant elements == Elements(meshes[..m])
    {
      assert meshes[..m + 1][..m] == meshes[..m];
      SkinAllRegisters(start, meshes[..m]);
      var baseVertex := |vertices|;
      vertices := AppendMeshVertices(vertices, meshes[m], Unbound);
      vertices, boneCounter := ProcessBones(vertices, meshes[m].bones, baseVertex, table, boneCounter);
      elements := AppendMeshElements(elements, meshes[m].faces, baseVertex);
    }
    assert meshes[..|meshes|] == meshes;
    return Some(Mesh(vertices, elements));
  }

  /** One corner of a tinyobj face: indices into the attribute arrays. */
  datatype ObjIndex = ObjIndex(vertexIndex: int, normalIndex: int, texcoordIndex: int)

  /** tinyobj::attrib_t: flat arrays of 3 (2 for texture coordinates) reals
      per entry; `colors` runs parallel to `vertices`. */
  datatype ObjAttrib = ObjAttrib(vertices: seq<real>, normals: seq<real>, texcoords: seq<real>, colors: seq<real>)

  /** The attribute reads of loadOBJ stay inside the arrays, as they must
      for the reads to be defined. */
  predicate Readable(attrib: ObjAttrib, index: ObjIndex) {
    && 0 <= index.vertexIndex && 3 * index.vertexIndex + 2 < |attrib.vertices|
    && 3 * index.vertexIndex + 2 < |attrib.colors|
    && 0 <= index.normalIndex && 3 * index.normalIndex + 2 < |attrib.normals|
    && 0 <= index.texcoordIndex && 2 * index.texcoordIndex + 1 < |attrib.texcoords|
  }

  predicate ShapesReadable(attrib: ObjAttrib, shapes: seq<seq<ObjIndex>>) {
    forall s, k :: 0 <= s < |shapes| && 0 <= k < |shapes[s]| ==> Readable(attrib, shapes[s][k])
  }

  /** The vertex loadOBJ assembles for one corner; the colour's alpha is
      255.  `slots` are the bone slots of a value-initialised vertex. */
  function Corner(attrib: ObjAttrib, index: ObjIndex, slots: BoneSlots): Vertex
    requires Readable(attrib, index)
  {
    var v, n, t := index.vertexIndex, index.normalIndex, index.texcoordIndex;
    Vertex(Vec3(attrib.vertices[3 * v], attrib.vertices[3 * v + 1], attrib.vertices[3 * v + 2]),
           Color(attrib.colors[3 * v] * 255.0, attrib.colors[3 * v + 1] * 255.0, attrib.colors[3 * v + 2] * 255.0, 255.0),
           Vec2(attrib.texcoords[2 * t], attrib.texcoords[2 * t + 1]),
           Vec3(attrib.normals[3 * n], attrib.normals[3 * n + 1], attrib.normals[3 * n + 2]),
           slots)
  }

  function ShapeCorners(attrib: ObjAttrib, indices: seq<ObjIndex>, slots: BoneSlots): (cs: seq<Vertex>)
    requires forall k :: 0 <= k < |indices| ==> Readable(attrib, indices[k])
    ensures |cs| == |indices|
    ensures forall k :: 0 <= k < |indices| ==> cs[k] == Corner(attrib, indices[k], slots)
  {
    seq(|indices|, k requires 0 <= k < |indices| => Corner(attrib, indices[k], slots))
  }

  /** Every corner of every shape, in file order. */
  function ObjCorners(attrib: ObjAttrib, shapes: seq<seq<ObjIndex>>, slots: BoneSlots): seq<Vertex>
    requires ShapesReadable(attrib, shapes)
    decreases |shapes|
  {
    if shapes == [] then []
    else
      var init := shapes[..|shapes| - 1];
      assert ShapesReadable(attrib, init) by {
        forall s, k | 0 <= s < |init| && 0 <= k < |init[s]|
          ensures Readable(attrib, init[s][k])
        {
          assert init[s] == shapes[s];
        }
      }
      ObjCorners(attrib, init, slots) + ShapeCorners(attrib, shapes[|shapes| - 1], slots)
  }

  /** `mesh` is a de-duplicated form of `corners`: one element per corner,
      each naming a vertex equal to its corner; no vertex stored twice; and
      every stored vertex is one of the corners. */
  ghost predicate Deduplicates(mesh: Mesh, corners: seq<Vertex>) {
    && |mesh.elements| == |corners|
    && (forall k :: 0 <= k < |corners| ==>
          mesh.elements[k] < |mesh.vertices| && mesh.vertices[mesh.elements[k]] == corners[k])
    && (forall i, j :: 0 <= i < j < |mesh.vertices| ==> mesh.vertices[i] != mesh.vertices[j])
    && (forall i :: 0 <= i < |mesh.vertices| ==> mesh.vertices[i] in corners)
  }

  /** The state of loadOBJ's loop: the buffers de-duplicate the corners seen
      so far, and the map sends each stored vertex to its position. */
  ghost predicate DedupState(vertices: seq<Vertex>, elements: seq<nat>, vertexMap: map<Vertex, nat>, seen: seq<Vertex>) {
    && Deduplicates(Mesh(vertices, elements), seen)
    && (forall v :: v in vertexMap <==> v in vertices)
    && (forall v :: v in vertexMap ==> vertexMap[v] < |vertices| && vertices[vertexMap[v]] == v)
  }

  /** One corner of loadOBJ: reuse the stored copy, or store it. */
  lemma DedupStep(vertices: seq<Vertex>, elements: seq<nat>, vertexMap: map<Vertex, nat>, seen: seq<Vertex>, v: Vertex)
    requires DedupState(vertices, elements, vertexMap, seen)
    ensures v in vertexMap ==> DedupState(vertices, elements + [vertexMap[v]], vertexMap, seen + [v])
    ensures v !in vertexMap ==>
      DedupState(vertices + [v], elements + [|vertices|], vertexMap[v := |vertices|], seen + [v])
  {
    if v in vertexMap {
      DedupReuse(vertices, elements, vertexMap, seen, v);
    } else {
      DedupStore(vertices, elements, vertexMap, seen, v);
    }
  }

  /** A corner already stored: its element is the stored copy's position. */
  lemma DedupReuse(vertices: seq<Vertex>, elements: seq<nat>, vertexMap: map<Vertex, nat>, seen: seq<Vertex>, v: Vertex)
    requires DedupState(vertices, elements, vertexMap, seen) && v in vertexMap
    ensures DedupState(vertices, elements + [vertexMap[v]], vertexMap, seen + [v])
  {
    var es := elements + [vertexMap[v]];
    forall k | 0 <= k < |seen| + 1
      ensures es[k] < |vertices| && vertices[es[k]] == (seen + [v])[k]
    {
    }
    forall i | 0 <= i < |vertices|
      ensures vertices[i] in seen + [v]
    {
      assert vertices[i] in seen;
    }
  }

  /** A corner not yet stored: it is appended, and its element is the new
      last position. */
  lemma DedupStore(vertices: seq<Vertex>, elements: seq<nat>, vertexMap: map<Vertex, nat>, seen: seq<Vertex>, v: Vertex)
    requires DedupState(vertices, elements, vertexMap, seen) && v !in vertexMap
    ensures DedupState(vertices + [v], elements + [|vertices|], vertexMap[v := |vertices|], seen + [v])
  {
    var vs, es := vertices + [v], elements + [|vertices|];
    assert v !in vertices;
    forall i, j | 0 <= i < j < |vs|
      ensures vs[i] != vs[j]
    {
      if j == |vertices| {
        assert vs[i] in vertices;
      }
    }
    forall i | 0 <= i < |vs|
      ensures vs[i] in seen + [v]
    {
      if i < |vertices| {
        assert vertices[i] in seen;
      }
    }
    forall k | 0 <= k < |seen| + 1
      ensures es[k] < |vs| && vs[es[k]] == (seen + [v])[k]
    {
    }
  }

  /** One corner of loadOBJ: reuse the stored copy through the map, or
      store the vertex at the end of the buffer. */
  method AddCorner(vertices0: seq<Vertex>, elements0: seq<nat>, vertexMap0: map<Vertex, nat>, ghost seen: seq<Vertex>,
                   vertex: Vertex)
    returns (vertices: seq<Vertex>, elements: seq<nat>, vertexMap: map<Vertex, nat>)
    requires DedupState(vertices0, elements0, vertexMap0, seen)
    ensures DedupState(vertices, elements, vertexMap, seen + [vertex])
    ensures vertex in vertexMap0 ==> vertices == vertices0
  {
    DedupStep(vertices0, elements0, vertexMap0, seen, vertex);
    if vertex !in vertexMap0 {
      var newIndex := |vertices0|;
      vertexMap := vertexMap0[vertex := newIndex];
      elements := elements0 + [newIndex];
      vertices := vertices0 + [vertex];
    } else {
      vertices, vertexMap := vertices0, vertexMap0;
      elements := elements0 + [vertexMap0[vertex]];
    }
  }

  /** The corner loop of one shape. */
  method DedupShape(attrib: ObjAttrib, shape: seq<ObjIndex>, slots: BoneSlots,
                    vertices0: seq<Vertex>, elements0: seq<nat>, vertexMap0: map<Vertex, nat>, ghost seen0: seq<Vertex>)
    returns (vertices: seq<Vertex>, elements: seq<nat>, vertexMap: map<Vertex, nat>)
    requires forall k :: 0 <= k < |shape| ==> Readable(attrib, shape[k])
    requires DedupState(vertices0, elements0, vertexMap0, seen0)
    ensures DedupState(vertices, elements, vertexMap, seen0 + ShapeCorners(attrib, shape, slots))
  {
    vertices, elements, vertexMap := vertices0, elements0, vertexMap0;
    ghost var seen := seen0;
    for k := 0 to |shape|
      invariant seen == seen0 + ShapeCorners(attrib, shape[..k], slots)
      invariant DedupState(vertices, elements, vertexMap, seen)
    {
      var vertex := Corner(attrib, shape[k], slots);
      vertices, elements, vertexMap := AddCorner(vertices, elements, vertexMap, seen, vertex);
      assert ShapeCorners(attrib, shape[..k + 1], slots) == ShapeCorners(attrib, shape[..k], slots) + [vertex];
      seen := seen + [vertex];
    }
    assert shape[..|shape|] == shape;
  }

  /** loadOBJ: `parsed` is what tinyobj::LoadObj hands back (None when it
      fails).  Each corner of each shape is assembled into a vertex; a
      vertex already stored is reused through the map, a new one is stored
      at the end of the buffer. */
  method LoadObj(parsed: Option<(ObjAttrib, seq<seq<ObjIndex>>)>, slots: BoneSlots) returns (mesh: Option<Mesh>)
    requires parsed.Some? ==> ShapesReadable(parsed.value.0, parsed.value.1)
    ensures parsed.None? ==> mesh == None
    ensures parsed.Some? ==> mesh.Some? && Deduplicates(mesh.value, ObjCorners(parsed.value.0, parsed.value.1, slots))
  {
    if parsed.None? {
      return None;
    }
    var (attrib, shapes) := parsed.value;
    var vertices: seq<Vertex> := [];
    var elements: seq<nat> := [];
    var vertexMap: map<Vertex, nat> := map[];
    for s := 0 to |shapes|
      invariant ShapesReadable(attrib, shapes[..s])
      invariant DedupState(vertices, elements, vertexMap, ObjCorners(attrib, shapes[..s], slots))
    {
      assert shapes[..s + 1][..s] == shapes[..s];
      assert shapes[..s + 1][s] == shapes[s];
      assert forall k :: 0 <= k < |shapes[s]| ==> Readable(attrib, shapes[s][k]);
      vertices, elements, vertexMap :=
        DedupShape(attrib, shapes[s], slots, vertices, elements, vertexMap, ObjCorners(attrib, shapes[..s], slots));
    }
    assert shapes[..|shapes|] == shapes;
    return Some(Mesh(vertices, elements));
  }

  /** How many values `for (x = 0; x <= n; x++)` visits. */
  function Span(n: int): nat {
    if n >= 0 then n + 1 else 0
  }

  /** How many values `for (x = 1; x <= n; x++)` visits. */
  function Cells(n: int): nat {
    if n > 0 then n else 0
  }

  /** Row `lat` of the sphere's vertices, longitude 0 to sx; `surface`
      gives the vertex at a grid point (its trigonometry is not modelled). */
  function SphereRow(sx: int, lat: int, surface: (int, int) -> Vertex): (r: seq<Vertex>)
    ensures |r| == Span(sx)
    ensures forall lng :: 0 <= lng < Span(sx) ==> r[lng] == surface(lat, lng)
  {
    seq(Span(sx), lng => surface(lat, lng))
  }

  /** Rows 0 to n - 1. */
  function SphereRows(sx: int, n: int, surface: (int, int) -> Vertex): seq<Vertex>
    decreases n
  {
    if n <= 0 then [] else SphereRows(sx, n - 1, surface) + SphereRow(sx, n - 1, surface)
  }

  /** The two triangles of grid cell (lat, lng), as the source emits them. */
  function Quad(sx: int, lat: int, lng: int): seq<int> {
    var start := lat * (sx + 1);
    var prevLng := lng - 1;
    [lng + start, lng + start - sx - 1, prevLng + start - sx - 1,
     prevLng + start - sx - 1, prevLng + start, lng + start]
  }

  /** The cells of row lat, longitude 1 to m. */
  function QuadRow(sx: int, lat: int, m: int): seq<int>
    decreases m
  {
    if m < 1 then [] else QuadRow(sx, lat, m - 1) + Quad(sx, lat, m)
  }

  /** The cells of rows 1 to n. */
  function QuadRows(sx: int, n: int): seq<int>
    decreases n
  {
    if n < 1 then [] else QuadRows(sx, n - 1) + QuadRow(sx, n, sx)
  }

  lemma MulMonotone(a: int, b: int, w: int)
    requires a <= b && 0 <= w
    ensures a * w <= b * w
  {
    assert b * w - a * w == (b - a) * w;
  }

  lemma MulStep(a: int, w: int)
    ensures (a + 1) * w == a * w + w
  {
  }

  lemma {:induction false} SphereRowsCount(sx: int, n: int, surface: (int, int) -> Vertex)
    requires 0 <= n
    ensures |SphereRows(sx, n, surface)| == n * Span(sx)
    decreases n
  {
    if n > 0 {
      SphereRowsCount(sx, n - 1, surface);
      MulStep(n - 1, Span(sx));
    }
  }

  /** The vertex of grid point (lat, lng) sits at lat * (sx + 1) + lng. */
  lemma {:induction false} SphereVertexAt(sx: int, n: int, surface: (int, int) -> Vertex, lat: int, lng: int)
    requires 0 <= lat < n && 0 <= lng < Span(sx)
    ensures lat * Span(sx) + lng < |SphereRows(sx, n, surface)|
    ensures SphereRows(sx, n, surface)[lat * Span(sx) + lng] == surface(lat, lng)
    decreases n
  {
    SphereRowsCount(sx, n, surface);
    SphereRowsCount(sx, n - 1, surface);
    MulStep(lat, Span(sx));
    MulMonotone(lat + 1, n, Span(sx));
    if lat < n - 1 {
      MulMonotone(lat + 1, n - 1, Span(sx));
      SphereVertexAt(sx, n - 1, surface, lat, lng);
    }
  }

  lemma {:induction false} QuadRowCount(sx: int, lat: int, m: int)
    ensures |QuadRow(sx, lat, m)| == 6 * Cells(m)
    decreases m
  {
    if m >= 1 {
      QuadRowCount(sx, lat, m - 1);
    }
  }

  /** Six indices per cell: 6 * sx * sy in all. */
  lemma {:induction false} QuadRowsCount(sx: int, n: int)
    ensures |QuadRows(sx, n)| == 6 * Cells(sx) * Cells(n)
    decreases n
  {
    if n >= 1 {
      QuadRowsCount(sx, n - 1);
      QuadRowCount(sx, n, sx);
      MulStep(Cells(n - 1), 6 * Cells(sx));
      assert 6 * Cells(sx) * Cells(n) == Cells(n) * (6 * Cells(sx));
      assert 6 * Cells(sx) * Cells(n - 1) == Cells(n - 1) * (6 * Cells(sx));
    }
  }

  /** Every index of a cell names a vertex of the grid. */
  lemma QuadInRange(sx: int, sy: int, lat: int, lng: int)
    requires 1 <= lat <= sy && 1 <= lng <= sx
    ensures forall e :: e in Quad(sx, lat, lng) ==> 0 <= e < Span(sy) * Span(sx)
  {
    var w := sx + 1;
    MulStep(lat - 1, w);
    MulMonotone(0, lat - 1, w);
    MulMonotone(lat, sy, w);
    MulStep(sy, w);
  }

  lemma {:induction false} QuadRowInRange(sx: int, sy: int, lat: int, m: int)
    requires 1 <= lat <= sy && m <= sx
    ensures forall e :: e in QuadRow(sx, lat, m) ==> 0 <= e < Span(sy) * Span(sx)
    decreases m
  {
    if m >= 1 {
      QuadRowInRange(sx, sy, lat, m - 1);
      QuadInRange(sx, sy, lat, m);
    }
  }

  /** Every element of the sphere names one of its vertices. */
  lemma {:induction false} QuadRowsInRange(sx: int, sy: int, n: int)
    requires n <= sy
    ensures forall e :: e in QuadRows(sx, n) ==> 0 <= e < Span(sy) * Span(sx)
    decreases n
  {
    if n >= 1 {
      QuadRowsInRange(sx, sy, n - 1);
      QuadRowInRange(sx, sy, n, sx);
    }
  }

  /** The inner vertex loop of sphere: one row of the grid. */
  method AppendSphereRow(vertices: seq<Vertex>, sx: int, lat: int, surface: (int, int) -> Vertex)
    returns (r: seq<Vertex>)
    ensures r == vertices + SphereRow(sx, lat, surface)
  {
    r := vertices;
    for lng := 0 to Span(sx)
      invariant r == vertices + SphereRow(sx, lat, surface)[..lng]
    {
      r := r + [surface(lat, lng)];
      assert SphereRow(sx, lat, surface)[..lng + 1] == SphereRow(sx, lat, surface)[..lng] + [surface(lat, lng)];
    }
    assert SphereRow(sx, lat, surface)[..Span(sx)] == SphereRow(sx, lat, surface);
  }

  /** The inner element loop of sphere: the cells of one row. */
  method AppendQuadRow(elements: seq<int>, sx: int, lat: int) returns (r: seq<int>)
    ensures r == elements + QuadRow(sx, lat, sx)
  {
    r := elements;
    var start := lat * (sx + 1);
    for lng := 1 to Cells(sx) + 1
      invariant r == elements + QuadRow(sx, lat, lng - 1)
    {
      var prevLng := lng - 1;
      r := r + [lng + start, lng + start - sx - 1, prevLng + start - sx - 1,
                prevLng + start - sx - 1, prevLng + start, lng + start];
    }
  }

  /** sphere: (sy + 1) rows of (sx + 1) vertices, then two triangles per
      grid cell.  No guard on the segment counts: a non-positive count
      simply yields an empty grid. */
  method Sphere(sx: int, sy: int, surface: (int, int) -> Vertex) returns (mesh: Mesh)
    ensures mesh.vertices == SphereRows(sx, Span(sy), surface)
    ensures mesh.elements == QuadRows(sx, sy)
    ensures |mesh.vertices| == Span(sy) * Span(sx)
    ensures |mesh.elements| == 6 * Cells(sx) * Cells(sy)
    ensures forall k :: 0 <= k < |mesh.elements| ==> mesh.elements[k] < |mesh.vertices|
  {
    var vertices: seq<Vertex> := [];
    for lat := 0 to Span(sy)
      invariant vertices == SphereRows(sx, lat, surface)
    {
      vertices := AppendSphereRow(vertices, sx, lat, surface);
    }
    var elements: seq<int> := [];
    for lat := 1 to Cells(sy) + 1
      invariant elements == QuadRows(sx, lat - 1)
    {
      elements := AppendQuadRow(elements, sx, lat);
    }
    SphereRowsCount(sx, Span(sy), surface);
    QuadRowsCount(sx, sy);
    assert elements == QuadRows(sx, sy);
    QuadRowsInRange(sx, sy, sy);
    assert forall k :: 0 <= k < |elements| ==> 0 <= elements[k] < |vertices| by {
      forall k | 0 <= k < |elements| ensures 0 <= elements[k] < |vertices| {
        assert elements[k] in QuadRows(sx, sy);
      }
    }
    mesh := Mesh(vertices, elements);
  }
}
