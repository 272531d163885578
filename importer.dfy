/** What the Assimp importer hands to the animation and mesh code: the
    scene graph, the animation channels and the meshes with their bones.
    Reading and parsing a file is not modelled; a scene arrives as a value
    (`None` standing for the null scene pointer of a failed read). */
module Importer {
  import opened LinAlg
  import opened Wrappers

  /** aiVectorKey */
  datatype VectorKey = VectorKey(time: real, value: Vec3)

  /** aiQuatKey */
  datatype QuatKey = QuatKey(time: real, value: Quat)

  /** aiNodeAnim: the keyframes of one animated node. */
  datatype NodeAnim = NodeAnim(nodeName: string, positionKeys: seq<VectorKey>,
                               rotationKeys: seq<QuatKey>, scalingKeys: seq<VectorKey>)

  /** aiAnimation */
  datatype AiAnimation = AiAnimation(duration: real, ticksPerSecond: real, channels: seq<NodeAnim>)

  /** aiNode: mNumChildren is the length of `children`. */
  datatype AiNode = AiNode(name: string, transformation: AiMatrix, children: seq<AiNode>)

  /** aiVertexWeight */
  datatype VertexWeight = VertexWeight(vertexId: nat, weight: real)

  /** aiBone */
  datatype AiBone = AiBone(name: string, offsetMatrix: AiMatrix, weights: seq<VertexWeight>)

  /** aiColor4D */
  datatype AiColor = AiColor(r: real, g: real, b: real, a: real)

  /** aiMesh.  An absent attribute stream (no normals, no first texture
      coordinate set, no first colour set) is `None`; a face is its list of
      vertex indices. */
  datatype AiMesh = AiMesh(vertices: seq<Vec3>, normals: Option<seq<Vec3>>,
                           textureCoords: Option<seq<Vec3>>, colors: Option<seq<AiColor>>,
                           faces: seq<seq<nat>>, bones: seq<AiBone>)

  /** Every present attribute stream has one entry per vertex, as Assimp
      guarantees and as the loaders' indexing demands. */
  predicate MeshWellFormed(m: AiMesh) {
    && (m.normals.Some? ==> |m.normals.value| == |m.vertices|)
    && (m.textureCoords.Some? ==> |m.textureCoords.value| == |m.vertices|)
    && (m.colors.Some? ==> |m.colors.value| == |m.vertices|)
  }

  type WellFormedMesh = m: AiMesh | MeshWellFormed(m) witness AiMesh([], None, None, None, [], [])

  /** aiScene: `incomplete` is the AI_SCENE_FLAGS_INCOMPLETE flag. */
  datatype Scene = Scene(incomplete: bool, root: Option<AiNode>, meshes: seq<WellFormedMesh>,
                         animations: seq<AiAnimation>)

  /** Assimp::Importer::ReadFile, as a function from a path to its result. */
  type Reader = string -> Option<Scene>
}
