# Crime City Enforcer: skeletal animation and game logic, in Dafny

This project models the skeletal-animation pipeline of the Crime City
Enforcer game engine, and the game systems that drive it. It covers:

- the keyframed `Bone`;
- the loaded clip, `Animation`, with its copied node hierarchy and the
  bone table that its loader shares with the skeletal-mesh loader;
- the `Animator`, which advances a clock and writes the 100 final bone
  matrices;
- the `AnimatorComponent`, which owns the clips of one entity;
- the `BoneAttachmentComponent`;
- four systems that act on a world of entities:
  - the animation system, which initialises animators, swaps in skeletal
    meshes and advances playing clips;
  - the bone-attachment system, which makes a weapon follow a bone;
  - the inventory controller, which selects a weapon slot and toggles the
    weapons' renderers;
  - the animation-choice part of the character controller;
- the mesh loaders of `mesh-utils.cpp`: Assimp meshes, skeletal meshes with
  bone weights, de-duplicating OBJ loading, and the UV sphere.

Each source file has its own module:

- `Keyframes` (bone.hpp)
- `Clip` (animation.hpp)
- `Playback` (animation/animator.hpp)
- `AnimatorComp` (components/animator.hpp and .cpp)
- `Attachment` (bone-attachment.hpp)
- `MeshUtils` (mesh-utils.cpp)
- `AnimationSys`, `AttachmentSys`, `InventorySys` and `CharacterSys` (the
  systems)

Shared modules:

- `LinAlg`: vectors and matrices, and the abstract glm numerics.
- `Strings`: the key order of `std::map<std::string, T>`.
- `Importer`: the scene Assimp hands back.
- `Ecs`: the entities and their components.
- `Wrappers`: `Option`.

How each source form is modelled:

- **Objects the source mutates are classes.** This covers the bone, the clip,
  the animator with its matrix array, the components, the systems and the
  entities. Their methods are proved against specification functions:
  - `KeyIndex`, `PositionAt` and `ApplyWrites`;
  - `NodeWrites` and `Pose`;
  - `Register` and `SkinAll`;
  - `Follow`, `Visibility`, `AfterPasses` and others.
- **Pure computations are functions.** The lemmas about them give the
  properties the engine relies on, for example:
  - the key scan brackets the time;
  - poses are idempotent and touch only bone-table ids;
  - registration numbers new bones consecutively and keeps ids distinct;
  - the clock stays inside the clip;
  - OBJ loading de-duplicates;
  - every sphere index names a vertex.
- **glm's floating-point operations stay abstract.** Matrix product,
  normalisation, slerp and quaternion-to-matrix are the fields of
  `LinAlg.Glm`. Translation, scaling, `mix` and the matrix layout
  conversion are written out, and the model computes over the reals.
- **External inputs are parameters.** The file reader (Assimp or tinyobj),
  the keyboard and the mouse wheel are passed in, as is the lookup of a
  bone's model-space matrix.

## Model

| member | source | states |
|---|---|---|
| Keyframes.KeyIndex | source/common/animation/bone.hpp:92-98 | the keyframe scan yields -1 for an empty track, otherwise an index in range that meets IsKeyIndex: the first i below n-1 with t before key i+1, else n-1 |
| Keyframes.KeyIndexUnique | source/common/animation/bone.hpp:92-98 | any index that meets the scan's characterisation is the scan's answer |
| Keyframes.KeyIndexBrackets | source/common/animation/bone.hpp:92-98 | for sorted timestamps and a time in [first, last), the chosen key and the next one enclose the time |
| Keyframes.KeyIndexOfSegment | source/common/animation/bone.hpp:92-98 | a time inside segment i of sorted timestamps selects exactly key i |
| Keyframes.KeyIndexAtEnd | source/common/animation/bone.hpp:92-98 | at or after the last timestamp the scan selects the last key |
| Keyframes.UpperIndex | source/common/animation/bone.hpp:128-130 | the second key is the next one, or the same key at the end of the track, always in range |
| Keyframes.ScaleFactorAsWritten | source/common/animation/bone.hpp:118-122 | the unguarded factor is undefined exactly when the two timestamps coincide, and otherwise scales the segment length to the elapsed time |
| Keyframes.ScaleFactor | source/common/animation/bone.hpp:118-122 | the guarded factor: 0 on a zero-length segment, otherwise f*(next-last) = t-last, and it lies in [0,1] inside a proper segment |
| Keyframes.FactorAtStart | source/common/animation/bone.hpp:118-122 | the factor at a segment's own start is 0 |
| Keyframes.FactorUnique | source/common/animation/bone.hpp:118-122 | on a proper segment the factor is the only number that scales its length to the elapsed time |
| Keyframes.PositionAtKey | source/common/animation/bone.hpp:124-141 | with strictly increasing timestamps, sampling at a key's own time gives that key's position |
| Keyframes.ScaleAtKey | source/common/animation/bone.hpp:165-182 | with strictly increasing timestamps, sampling at a key's own time gives that key's scale |
| Keyframes.PositionAfterLastKey | source/common/animation/bone.hpp:124-141 | at or after the last key the position holds the last key's value |
| Keyframes.ScaleAfterLastKey | source/common/animation/bone.hpp:165-182 | at or after the last key the scale holds the last key's value |
| Keyframes.SingleKeyIgnoresTime | source/common/animation/bone.hpp:124-167 | a one-key track yields its key's position, normalised orientation or scale, whatever the time |
| Keyframes.PositionBeforeSecondKey | source/common/animation/bone.hpp:124-141 | before the second key, the position is the mix of the first two keys by the segment factor |
| Keyframes.PositionHalfway | source/common/animation/bone.hpp:132-140 | halfway in time between the first two keys, the position is their even mix |
| Keyframes.PositionExtrapolatesBeforeFirstKey | source/common/animation/bone.hpp:118-141 | before the first key the factor is negative and the first segment is extended backwards, not clamped |
| Keyframes.PositionAtAsWritten | source/common/animation/bone.hpp:124-141 | interpolatePosition with the unguarded factor: where defined, it agrees with the corrected PositionAt |
| Keyframes.PositionAsWrittenUndefinedAtEnd | source/common/animation/bone.hpp:128-135 | as written, a track of two or more sorted keys has no defined position at or after its last key |
| Keyframes.PositionAsWrittenAtLastKey | source/common/animation/bone.hpp:128-135 | keys at times 0 and 5 sampled at 5: undefined as written, the last key's position when corrected |
| Keyframes.Bone.constructor | source/common/animation/bone.hpp:45-77 | the three key vectors copy the channel's keys in order, with counts; the local transform starts as the identity |
| Keyframes.Bone.Update | source/common/animation/bone.hpp:80-85 | the local transform becomes T(t)*R(t)*S(t) of the interpolated tracks; the keys are unchanged |
| Keyframes.Bone.LocalAt | source/common/animation/bone.hpp:80-85 | definition: translation * rotation * scale of the three interpolated tracks; Update stores it |
| Keyframes.Bone.GetPositionIndex | source/common/animation/bone.hpp:92-98 | the loop returns the scan index KeyIndex of the position timestamps |
| Keyframes.Bone.GetRotationIndex | source/common/animation/bone.hpp:100-106 | the loop returns the scan index KeyIndex of the rotation timestamps |
| Keyframes.Bone.GetScaleIndex | source/common/animation/bone.hpp:108-114 | the loop returns the scan index KeyIndex of the scale timestamps |
| Keyframes.PositionAt | source/common/animation/bone.hpp:124-141 | definition: the single key, or the mix of the bracketing keys by ScaleFactor; PositionAtKey, PositionHalfway, PositionBeforeSecondKey, PositionAfterLastKey and SingleKeyIgnoresTime state its values |
| Keyframes.RotationAt | source/common/animation/bone.hpp:143-163 | definition: the normalised single key, or the normalised slerp of the bracketing keys by ScaleFactor; SingleKeyIgnoresTime states its single-key value |
| Keyframes.ScaleAt | source/common/animation/bone.hpp:165-182 | definition: the single key, or the mix of the bracketing keys by ScaleFactor; ScaleAtKey, ScaleAfterLastKey and SingleKeyIgnoresTime state its values |
| Keyframes.Bone.InterpolatePosition | source/common/animation/bone.hpp:124-141 | the matrix is the translation by the interpolated position PositionAt |
| Keyframes.Bone.InterpolateRotation | source/common/animation/bone.hpp:143-163 | the matrix is the rotation of the normalised slerp RotationAt |
| Keyframes.Bone.InterpolateScaling | source/common/animation/bone.hpp:165-182 | the matrix is the scaling by the interpolated scale ScaleAt |
| LinAlg.Mix3 | source/common/animation/bone.hpp:136-139 | glm::mix returns the first vector at 0 and the second at 1, and a vector mixed with itself is unchanged |
| LinAlg.ConvertMatrix | source/common/animation/animation.hpp:123-130 | entry (column c, row r) of the glm matrix is Assimp's entry (row r, column c), for all 16 entries |
| LinAlg.TranslationOfTranslate | source/common/systems/bone-attachment-system.hpp:41 | the translation column of a translation matrix is its vector |
| Clip.MirrorsWellFormed | source/common/animation/animation.hpp:111-121 | a copied hierarchy has every node's count equal to its number of children |
| Clip.MirrorsUnique | source/common/animation/animation.hpp:111-121 | an importer node has exactly one copy |
| Clip.ReadHierarchyData | source/common/animation/animation.hpp:111-121 | the result copies the node's name, converted transform and count, and each child recursively in order |
| Clip.BoneTable.constructor | source/common/components/animator.hpp:16 | the shared bone table starts empty |
| Clip.BoneCountUnique | source/common/animation/animation.hpp:87-93 | the count readMissingBones starts from is determined by the table |
| Clip.BoneCount | source/common/animation/animation.hpp:87-93 | the count is one more than the largest id, or 0, whichever order the entries are visited in |
| Clip.CurrentBoneCount | source/common/animation/animation.hpp:87-93 | the scan over the table returns BoneCount |
| Clip.ChannelCandidates | source/common/animation/animation.hpp:96-102 | each channel offers its node name with an identity offset, in channel order |
| Clip.NewCandidatesFirst | source/common/animation/animation.hpp:96-105 | each newly registered bone is absent from the old table and is the first offer of its name |
| Clip.NewCandidatesNames | source/common/animation/animation.hpp:96-105 | the new names are exactly the offered names that the table lacked |
| Clip.NewCandidatesDistinct | source/common/animation/animation.hpp:96-105 | no name is registered twice |
| Clip.RegisterTable | source/common/animation/animation.hpp:96-105 | registering keeps the old entries, stores the k-th new name with id next+k, adds nothing else, and advances the counter by the number of new names |
| Clip.Register | source/common/animation/animation.hpp:96-104 | definition: offer candidates in order, a new name taking the counter as id; RegisterSpec and RegisterTable state the resulting table |
| Clip.RegisterSpec | source/common/animation/animation.hpp:96-105 | every offered name ends up in the table, old entries are kept, new names get consecutive ids from the first offer, and those names are distinct |
| Clip.RegisterAppend | source/common/animation/animation.hpp:96-105 | offering a and then b is offering a+b |
| Clip.RegisterFirstNew | source/common/animation/animation.hpp:96-105 | a new first offer gets the starting counter as its id |
| Clip.RegisterKeepsIdsDistinct | source/common/animation/animation.hpp:96-105 | with distinct ids below the counter, registering keeps ids distinct and below the new counter |
| Clip.RegisterKeepsIdsNonNegative | source/common/animation/animation.hpp:96-105 | registering from non-negative ids and counter keeps them non-negative |
| Clip.ReadMissingBones | source/common/animation/animation.hpp:84-109 | the table becomes Register of the channels from BoneCount; one bone per channel, copying its keys, named by it, with its table id |
| Clip.ReadChannel | source/common/animation/animation.hpp:97-105 | a name the table lacks is registered with the counter as id and an identity offset, the counter advancing; known names keep their entries; the new bone copies the channel and carries the name's id |
| Clip.CarriesNext | source/common/animation/animation.hpp:105 | bones built so far keep their channels and ids when the table only grows and one more bone is appended |
| Clip.ReadStep | source/common/animation/animation.hpp:96-106 | one turn registers the next channel's name and appends one fresh bone, keeping the table equal to Register of the channels read so far |
| Clip.RegisterNextChannel | source/common/animation/animation.hpp:96-104 | registering channel i after the first i channels is registering the first i + 1 |
| Clip.ReadAll | source/common/animation/animation.hpp:96-108 | after the last channel the table is Register of all the channels, and bone i copies channel i with that name's id |
| Clip.FindBone | source/common/animation/animation.hpp:69-76 | the index of the first bone with the name, or none exactly when no bone has it |
| Clip.TicksPerSecond | source/common/animation/animation.hpp:57-61 | the file's rate, or 25 when it is 0; never 0 |
| Clip.DefaultRootAsWritten | source/common/animation/animation.hpp:22-54 | after an early return, the root node is unnamed and childless, with a children count that is never assigned |
| Clip.DefaultRootAsWrittenIllFormed | source/common/animation/animation.hpp:22-54 | a leftover count of 1 makes the root claim more children than it has, so the pose walk would read past them |
| Clip.DefaultRoot | source/common/animation/animation.hpp:22-27 | the corrected default root is well-formed, unnamed and childless |
| Clip.Animation.constructor | source/common/animation/animation.hpp:41-65 | without a scene, root or animation: no bones, table unchanged, a default root; otherwise it stores the first animation's duration and rate (25 by default), copies the hierarchy, registers the channels, and gives one bone per channel; keyed channels make the clip posable |
| Playback.Trunc | source/common/animation/animator.hpp:31 | conversion toward zero: the integer within 1 of the quotient, on the side of 0 |
| Playback.FmodAsWritten | source/common/animation/animator.hpp:31 | fmod is NaN (none) exactly when the divisor is 0 |
| Playback.ZeroDurationIsNaN | source/common/animation/animator.hpp:29-31 | as written, a zero-length clip turns the clock into NaN whatever the time and step |
| Playback.NextTime | source/common/animation/animator.hpp:30-31 | the corrected clock holds its time for a zero-length clip, and otherwise equals the source's fmod(time + step, duration) |
| Playback.Fmod | source/common/animation/animator.hpp:31 | definition: C fmod, x minus the truncated quotient times d; FmodRange, FmodInside and FmodPeriodic state its values |
| Playback.FmodRange | source/common/animation/animator.hpp:31 | for a non-negative time and a positive duration the wrapped time lies in [0, duration) |
| Playback.FmodInside | source/common/animation/animator.hpp:31 | a time already inside [0, duration) is unchanged |
| Playback.FmodPeriodic | source/common/animation/animator.hpp:31 | adding one duration does not change the wrapped time |
| Playback.NextTimeRange | source/common/animation/animator.hpp:30-31 | with a non-negative time and step and a positive duration, the clock stays in [0, duration) |
| Playback.ApplyWrites | source/common/animation/animator.hpp:81 | the stores keep the array's length |
| Playback.ApplyWritesAppend | source/common/animation/animator.hpp:64-88 | storing w1 and then w2 is storing w1+w2 |
| Playback.ApplyWritesIsLastStored | source/common/animation/animator.hpp:64-88 | each entry holds the last value stored to it, or its old value |
| Playback.LastStoredBase | source/common/animation/animator.hpp:64-88 | an untouched entry keeps its value; a touched entry's value does not depend on the starting array |
| Playback.ApplyWritesIdempotent | source/common/animation/animator.hpp:64-88 | performing the same stores twice is performing them once |
| Playback.OwnWrite | source/common/animation/animator.hpp:76-83 | a node makes at most one store, in range, exactly when its name is in the bone table with an id below 100 |
| Playback.NodeWrites | source/common/animation/animator.hpp:64-88 | every store of a node's walk is inside the 100-entry array |
| Playback.ChildWrites | source/common/animation/animator.hpp:85-87 | every store of a node's child walks is inside the array |
| Playback.WritesAreBoneIds | source/common/animation/animator.hpp:76-87 | every store of the walk is at the id of a name in the bone table |
| Playback.ChildWritesAreBoneIds | source/common/animation/animator.hpp:85-87 | every store of the child walks is at a bone-table id |
| Playback.PoseLeavesOtherEntries | source/common/animation/animator.hpp:64-88 | an entry that is no bone's id keeps its value through a pose |
| Playback.NodeTransform | source/common/animation/animator.hpp:65-72 | definition: the bone's LocalAt when the clip has a track of the node's name, else the node's own transform; NodeLocal computes it |
| Playback.Pose | source/common/animation/animator.hpp:64-88 | definition: the matrix array after the writes of a walk from the root under the identity; PoseIdempotent and PoseLeavesOtherEntries state its properties |
| Playback.PoseIdempotent | source/common/animation/animator.hpp:64-88 | posing twice at the same time gives the same matrices as posing once |
| Playback.SettledTransitive | source/common/animation/animator.hpp:68-72 | a bone that either kept its transform or settled at time t still has one of the two after a second walk |
| Playback.Animator.constructor | source/common/animation/animator.hpp:22-25 | 100 identity matrices, the given clip, time and step 0, not playing |
| Playback.Animator.NodeLocal | source/common/animation/animator.hpp:65-72 | the node's local transform is its bone's transform at the current time if the clip has the bone, else the node's own; bones only settle |
| Playback.Animator.StoreBoneMatrix | source/common/animation/animator.hpp:76-83 | the array becomes the old array with the node's one store, if any |
| Playback.Animator.CalculateBoneTransform | source/common/animation/animator.hpp:64-88 | the array becomes the old array with the walk's stores NodeWrites applied; bones only settle |
| Playback.Animator.VisitChild | source/common/animation/animator.hpp:85-87 | posing child i performs exactly its subtree's stores after the earlier children's and leaves every bone settled |
| Playback.Animator.UpdateAnimation | source/common/animation/animator.hpp:27-34 | the step is stored; when playing with a clip, the clock moves by NextTime, the matrices become the Pose at the new time, and each bone of the clip holds its transform at the new time or keeps its old one; otherwise time, matrices and bones are kept |
| Playback.Animator.PlayAnimation | source/common/animation/animator.hpp:36-44 | it switches clips at time 0, stopped, and poses a non-null clip once at time 0, leaving each of its bones at its time-0 transform or untouched |
| Playback.Animator.Stop | source/common/animation/animator.hpp:46 | playing becomes false; clip, time and step are kept |
| Playback.Animator.Play | source/common/animation/animator.hpp:47 | playing becomes true; clip, time and step are kept |
| Playback.Animator.Reset | source/common/animation/animator.hpp:48-54 | time goes back to 0 and a clip is re-posed at 0, each of its bones left at its time-0 transform or untouched; the play flag is kept |
| MeshUtils.FirstFree | source/common/mesh/mesh-utils.cpp:107-108 | the first slot with a negative id, with no free slot before it; none exactly when all four are used |
| MeshUtils.WithBoneFillsFirstFree | source/common/mesh/mesh-utils.cpp:106-114 | the bone and its weight go into the first free slot only; a full vertex is unchanged |
| MeshUtils.WithBone | source/common/mesh/mesh-utils.cpp:106-114 | definition: the weight goes into the first slot with a negative id; WithBoneFillsFirstFree, WithBoneKeepsGeometry and WithBoneKeepsPacked state its effect |
| MeshUtils.SetVertexBoneData | source/common/mesh/mesh-utils.cpp:106-114 | the slot scan yields WithBone |
| MeshUtils.WithBoneKeepsPacked | source/common/mesh/mesh-utils.cpp:106-114 | adding a non-negative id keeps the used slots at the front |
| MeshUtils.ImportedVertex | source/common/mesh/mesh-utils.cpp:59-89 | position copied; normal, texture coordinates and colour copied when present, else (0,1,0), (0,0) and white |
| MeshUtils.MeshVertices | source/common/mesh/mesh-utils.cpp:59-89 | one vertex per imported vertex, in order |
| MeshUtils.Offset | source/common/mesh/mesh-utils.cpp:92-97 | each face index is shifted by the mesh's base vertex |
| MeshUtils.PlainVerticesCount | source/common/mesh/mesh-utils.cpp:54-89 | the vertex buffer holds all vertices of all meshes |
| MeshUtils.PlainVerticesAt | source/common/mesh/mesh-utils.cpp:54-89 | vertex i of mesh k sits after all vertices of earlier meshes |
| MeshUtils.VertexCountPrefix | source/common/mesh/mesh-utils.cpp:54-56 | a mesh's base vertex plus its vertex count stays within the total |
| MeshUtils.Elements | source/common/mesh/mesh-utils.cpp:91-97 | definition: every mesh's face indices shifted by its base vertex; ElementsAt and ElementsInRange state its contents |
| MeshUtils.ElementsAt | source/common/mesh/mesh-utils.cpp:54-97 | element j of mesh k is its j-th face index shifted by the mesh's base vertex |
| MeshUtils.ElementsInRange | source/common/mesh/mesh-utils.cpp:92-97 | when each mesh's faces index its own vertices, every element names a vertex of the buffer |
| MeshUtils.AppendMeshVertices | source/common/mesh/mesh-utils.cpp:59-89 | the loop appends exactly MeshVertices of the mesh |
| MeshUtils.AppendMeshElements | source/common/mesh/mesh-utils.cpp:92-97 | the loop appends exactly the shifted face indices |
| MeshUtils.LoadMesh | source/common/mesh/mesh-utils.cpp:35-103 | no mesh for a missing, incomplete or rootless scene; otherwise all vertices and shifted elements of all meshes |
| MeshUtils.ApplyWeights | source/common/mesh/mesh-utils.cpp:195-204 | the weight loop keeps the number of vertices |
| MeshUtils.BoneCandidates | source/common/mesh/mesh-utils.cpp:180-193 | each bone offers its name with its converted offset matrix, in order |
| MeshUtils.AddBonesRegisters | source/common/mesh/mesh-utils.cpp:180-193 | the skeletal loader's bone loop registers exactly as the clip loader's Register does |
| MeshUtils.SkinAllRegisters | source/common/mesh/mesh-utils.cpp:135-214 | across all meshes, table and counter are those of registering every mesh's bones in order; the buffer grows by all vertices |
| MeshUtils.SkinIdsStartAtZero | source/common/mesh/mesh-utils.cpp:135-190 | the first new bone name gets id 0, whatever the table already holds |
| MeshUtils.ApplyWeightsKeepsGeometry | source/common/mesh/mesh-utils.cpp:198-204 | setting weights changes no position, colour, texture coordinate or normal |
| MeshUtils.WithBoneKeepsGeometry | source/common/mesh/mesh-utils.cpp:106-114 | filling a slot changes no geometry |
| MeshUtils.AddBonesKeepsGeometry | source/common/mesh/mesh-utils.cpp:180-205 | the bone loop changes no geometry |
| MeshUtils.SkinAllGeometry | source/common/mesh/mesh-utils.cpp:138-214 | for the same imported scene, the skeletal buffer has PlainVertices' geometry, vertex by vertex |
| MeshUtils.ApplyWeightsOnlyTargets | source/common/mesh/mesh-utils.cpp:198-204 | a vertex that no weight points at is left unchanged |
| MeshUtils.ApplyWeightsKeepsPacked | source/common/mesh/mesh-utils.cpp:198-204 | with a non-negative id, every vertex keeps its used slots at the front |
| MeshUtils.AddBonesKeepsPacked | source/common/mesh/mesh-utils.cpp:180-205 | the bone loop keeps slots packed and ids non-negative |
| MeshUtils.SkinAllPacked | source/common/mesh/mesh-utils.cpp:138-214 | every skeletal vertex keeps its used slots at the front |
| MeshUtils.ApplyBoneWeights | source/common/mesh/mesh-utils.cpp:195-204 | the loop yields ApplyWeights: each in-range weight fills its vertex's first free slot |
| MeshUtils.AddBone | source/common/mesh/mesh-utils.cpp:181-204 | definition: a new name is stored with the counter and its converted offset, a known name keeps its id, then the bone's weights are applied |
| MeshUtils.AddBones | source/common/mesh/mesh-utils.cpp:180-205 | definition: AddBone for each bone in order; AddBonesRegisters, AddBonesKeepsGeometry and AddBonesKeepsPacked state its effect |
| MeshUtils.SkinAll | source/common/mesh/mesh-utils.cpp:138-205 | definition: each mesh's vertices with empty slots, then its bones; SkinAllRegisters, SkinAllGeometry, SkinAllPacked and SkinIdsStartAtZero state its effect |
| MeshUtils.ProcessBones | source/common/mesh/mesh-utils.cpp:180-205 | buffer, shared table and counter end as AddBones describes |
| MeshUtils.LoadSkeletalMesh | source/common/mesh/mesh-utils.cpp:117-221 | no mesh and table unchanged for an unloadable scene; otherwise the SkinAll buffer from a counter of 0, the shifted elements, and the SkinAll table |
| MeshUtils.ShapeCorners | source/common/mesh/mesh-utils.cpp:252-279 | one assembled vertex per face corner, in order |
| MeshUtils.DedupStep | source/common/mesh/mesh-utils.cpp:281-292 | reusing a stored vertex or storing a new one keeps the buffers a de-duplication of the corners seen |
| MeshUtils.DedupReuse | source/common/mesh/mesh-utils.cpp:289-292 | a corner already in the map adds the stored copy's index and no vertex, and the buffers still de-duplicate the corners seen |
| MeshUtils.DedupStore | source/common/mesh/mesh-utils.cpp:283-288 | a corner not in the map is appended as a new distinct vertex whose index is recorded and emitted, and the buffers still de-duplicate the corners seen |
| MeshUtils.AddCorner | source/common/mesh/mesh-utils.cpp:281-292 | one corner keeps the de-duplication state; a known vertex adds no vertex |
| MeshUtils.DedupShape | source/common/mesh/mesh-utils.cpp:252-293 | one shape's corners extend the de-duplication state |
| MeshUtils.LoadObj | source/common/mesh/mesh-utils.cpp:223-297 | no mesh when parsing fails; otherwise one element per corner naming an equal vertex, no vertex twice, and every vertex is a corner |
| MeshUtils.SphereRow | source/common/mesh/mesh-utils.cpp:310-318 | a row holds sx+1 grid points, longitude by longitude |
| MeshUtils.SphereRowsCount | source/common/mesh/mesh-utils.cpp:306-319 | n rows hold n*(sx+1) vertices |
| MeshUtils.SphereVertexAt | source/common/mesh/mesh-utils.cpp:306-319 | grid point (lat, lng) is vertex lat*(sx+1)+lng |
| MeshUtils.QuadRowCount | source/common/mesh/mesh-utils.cpp:323-331 | six indices per cell of a row |
| MeshUtils.QuadRowsCount | source/common/mesh/mesh-utils.cpp:321-332 | 6*sx*sy indices in all |
| MeshUtils.QuadInRange | source/common/mesh/mesh-utils.cpp:324-330 | each of a cell's six indices names a grid vertex |
| MeshUtils.QuadRowInRange | source/common/mesh/mesh-utils.cpp:322-331 | every index of a row names a grid vertex |
| MeshUtils.QuadRowsInRange | source/common/mesh/mesh-utils.cpp:321-332 | every index of the rows names a grid vertex |
| MeshUtils.AppendSphereRow | source/common/mesh/mesh-utils.cpp:310-318 | the inner vertex loop appends one row |
| MeshUtils.AppendQuadRow | source/common/mesh/mesh-utils.cpp:323-331 | the inner element loop appends one row of cells |
| MeshUtils.Sphere | source/common/mesh/mesh-utils.cpp:301-335 | (sy+1)*(sx+1) vertices and 6*sx*sy elements, each naming a vertex |
| AnimatorComp.WithEntriesSpec | source/common/components/animator.cpp:16-20 | each configured name maps to its path, old names not configured are kept, and nothing else is added |
| AnimatorComp.PathsAfterSpec | source/common/components/animator.cpp:15-25 | the legacy "animation" key overrides a "default" entry; other entries map to their paths or keep their old values |
| AnimatorComp.ClipsTableCons | source/common/components/animator.cpp:44-48 | loading a first clip and then the rest is loading them all in turn |
| AnimatorComp.InitialClip | source/common/components/animator.cpp:50-57 | "idle" if present, else "default", else the first name in map order; none exactly when there are no clips |
| AnimatorComp.InitialClipIsFirstOtherwise | source/common/components/animator.cpp:50-57 | without "idle" and "default", the first name in map order is chosen |
| AnimatorComp.AnimatorComponent.constructor | source/common/components/animator.hpp:15-24 | no clips, no mesh, empty paths and table, enabled, not initialised, an animator of 100 identities |
| AnimatorComp.AnimatorComponent.HasAnimation | source/common/components/animator.hpp:51-53 | definition: the name is a key of the clip map; SetAnimation's contract is stated with it, and AnimateCharacter tests it |
| AnimatorComp.AnimatorComponent.SetAnimation | source/common/components/animator.hpp:42-48 | switches, at time 0 and stopped, iff the name is a known clip other than the current one; otherwise nothing changes |
| AnimatorComp.AnimatorComponent.Play | source/common/components/animator.hpp:69 | the animator plays; time and clip are kept |
| AnimatorComp.AnimatorComponent.Stop | source/common/components/animator.hpp:72 | the animator stops; time and clip are kept |
| AnimatorComp.AnimatorComponent.Reset | source/common/components/animator.hpp:75 | time 0, re-posed at 0 when there is a clip |
| AnimatorComp.AnimatorComponent.Update | source/common/components/animator.hpp:84-86 | one updateAnimation step of the animator |
| AnimatorComp.AnimatorComponent.Deserialize | source/common/components/animator.cpp:8-30 | a non-object changes nothing; mesh, paths and enabled change only when their keys are present |
| AnimatorComp.AnimatorComponent.NewClip | source/common/components/animator.cpp:45 | the new clip is loaded from its path and is posable; the table is extended by that clip |
| AnimatorComp.AnimatorComponent.LoadClip | source/common/components/animator.cpp:44-48 | loading the first remaining name keeps the loop state, with that name done |
| AnimatorComp.LoadProgressStep | source/common/components/animator.cpp:44-48 | loading the least remaining name into the table keeps the loop state with that name done |
| AnimatorComp.LoadedStep | source/common/components/animator.cpp:45-46 | every name already done, and the one just loaded, holds a clip read from its own path |
| AnimatorComp.KeptStep | source/common/components/animator.cpp:46 | storing the new clip adds exactly its name to the map and replaces no other old clip |
| AnimatorComp.TableStep | source/common/components/animator.cpp:44-45 | after loading the least remaining name, the remaining names in order still lead to the same final table |
| AnimatorComp.AnimatorComponent.ChooseInitialClip | source/common/components/animator.cpp:50-57 | the InitialClip choice is switched to when it differs from the current clip |
| AnimatorComp.AnimatorComponent.Initialize | source/common/components/animator.cpp:32-61 | runs once: the mesh step per AfterMesh; with a non-empty table, all clips loaded in name order and the initial clip chosen, switching to it at time 0 with the matrices posed at 0 when it differs, and otherwise keeping clock and matrices; with an empty table clips, clock and matrices untouched; the flag is set |
| AnimatorComp.AnimatorComponent.LoadMeshStep | source/common/components/animator.cpp:36-40 | a non-empty mesh path loads the skeletal mesh into the bone table per AfterMesh; the paths, clips and flags are untouched |
| AnimatorComp.AnimatorComponent.LoadClipsStep | source/common/components/animator.cpp:43-58 | an empty bone table leaves the clips, the current clip, the clock and the matrices alone; otherwise every configured clip is loaded and the InitialClip choice is switched to when it differs, at time 0 with the matrices posed at 0, while no switch keeps the clock and the matrices |
| AnimatorComp.AnimatorComponent.LoadClips | source/common/components/animator.cpp:43-49 | one freshly loaded clip per configured name, others kept, and the table extended clip by clip in name order |
| Strings.LessEq | source/common/components/animator.cpp:55-56 | definition: std::map key order, lexicographic with a proper prefix first; LessEqReflexive, LessEqTotal and LessEqTransitive make it a total order |
| Strings.LeastKey | source/common/components/animator.cpp:56 | the linear scan finds the first key of a non-empty set in map order |
| Strings.LeastUnique | source/common/components/animator.cpp:56 | a set has at most one first key |
| Strings.LeastExists | source/common/components/animator.cpp:56 | every non-empty key set has a first key |
| Strings.SortedKeysStep | source/common/components/animator.cpp:44 | ordered iteration visits the first key, then the rest in order |
| Strings.SortedKeysContents | source/common/components/animator.cpp:44-48 | ordered iteration visits each key exactly once |
| Strings.SortedKeysOrdered | source/common/components/animator.cpp:44-48 | ordered iteration visits keys in non-decreasing order |
| Attachment.ParseOffset | source/common/components/bone-attachment.hpp:62-70 | each missing part of an animation offset is zero |
| Attachment.WithOffsetsSpec | source/common/components/bone-attachment.hpp:60-73 | each configured clip maps to its parsed offset, other entries are kept, and nothing else is added |
| Attachment.BoneAttachment.constructor | source/common/components/bone-attachment.hpp:19-32 | empty bone name, zero offsets, unit scale, zero base rotation not yet captured, no overrides |
| Attachment.BoneAttachment.OffsetsForAnimation | source/common/components/bone-attachment.hpp:77-86 | the defaults, plus the clip's override when there is one; a zero override gives the defaults |
| Attachment.BoneAttachment.Deserialize | source/common/components/bone-attachment.hpp:36-74 | a non-object changes nothing; each field changes only when its key is present; the base rotation is kept |
| AttachmentSys.Radians | source/common/systems/bone-attachment-system.hpp:51 | definition: glm::radians, each component times the exact rational RadiansPerDegree; Follow's contract uses it |
| AttachmentSys.Follow | source/common/systems/bone-attachment-system.hpp:32-56 | a skipped entity is unchanged; otherwise the base rotation is captured once, and the transform is bone origin + position offset, base + radians(rotation offset), and the scale multiplier |
| AttachmentSys.FollowIdempotent | source/common/systems/bone-attachment-system.hpp:32-56 | following the same bone twice is following it once |
| AttachmentSys.FollowCapturesOnce | source/common/systems/bone-attachment-system.hpp:34-37 | once captured, the base rotation never changes |
| AttachmentSys.FollowIgnoresTransform | source/common/systems/bone-attachment-system.hpp:41-56 | after capture, the result does not depend on the previous transform |
| AttachmentSys.FollowWithoutOffsets | source/common/systems/bone-attachment-system.hpp:41-56 | with zero offsets and a pure translation, the entity sits at the translation with its base rotation |
| AttachmentSys.Resolve | source/common/systems/bone-attachment-system.hpp:16-45 | an entity is placed iff it has a named attachment, a parent with an enabled animator, and a bone found by the lookup; it uses that bone, the current clip's offsets and the scale |
| AttachmentSys.BoneAttachmentSystem.UpdateEntity | source/common/systems/bone-attachment-system.hpp:16-56 | the entity's follower state moves by Follow; the attachment's configuration is unchanged |
| AttachmentSys.BoneAttachmentSystem.Update | source/common/systems/bone-attachment-system.hpp:14-58 | every entity's follower state moves by Follow |
| InventorySys.CRem | source/common/systems/inventory-controller.hpp:35-37 | C's % 5: the Euclidean remainder for non-negative operands, with the dividend's sign otherwise, strictly between -5 and 5 |
| InventorySys.CRemNegative | source/common/systems/inventory-controller.hpp:37 | for a negative dividend, C's remainder by 5 lies in (-5, 0] and is the Euclidean remainder minus 5 unless that is 0 |
| InventorySys.KeySlot | source/common/systems/inventory-controller.hpp:26-30 | no digit key keeps the slot; otherwise the highest pressed key of 1-5 selects slot key-1 |
| InventorySys.Clamp | source/common/systems/inventory-controller.hpp:41-42 | the result lies in [0, 4], keeps an in-range slot, and maps below to 0 and above to 4 |
| InventorySys.SelectSlot | source/common/systems/inventory-controller.hpp:23-42 | the selected slot is always in [0, 4] |
| InventorySys.Scrolled | source/common/systems/inventory-controller.hpp:33-38 | definition: wheel up gives CRem(s+1), wheel down CRem(s-1+5), no scroll keeps s; WheelCycles and NegativeSlotClamps state its values |
| InventorySys.WheelCycles | source/common/systems/inventory-controller.hpp:33-38 | from an in-range slot the wheel cycles up or down through the five slots; no scroll keeps it |
| InventorySys.NegativeSlotClamps | source/common/systems/inventory-controller.hpp:33-42 | with no key pressed, a slot below -5 scrolls to at most 0 and clamps to 0 |
| InventorySys.First | source/common/systems/inventory-controller.hpp:48-53 | the first entity with the name, none exactly when no entity has it |
| InventorySys.SetFlag | source/common/systems/inventory-controller.hpp:48-53 | only the first entity with the name, if it has a renderer, gets the value |
| InventorySys.HideAll | source/common/systems/inventory-controller.hpp:46-56 | every weapon that some slot lists, found by name, is hidden; other renderers keep their flags |
| InventorySys.ShowSlot | source/common/systems/inventory-controller.hpp:59-69 | when the active slot exists, each of its weapons, found by name, is shown; others keep their flags |
| InventorySys.ShownIsListed | source/common/systems/inventory-controller.hpp:59-69 | a weapon of the active slot is listed in some slot |
| InventorySys.Visibility | source/common/systems/inventory-controller.hpp:44-69 | an active-slot weapon is shown, and an unlisted entity keeps its flag |
| InventorySys.HideThenShow | source/common/systems/inventory-controller.hpp:44-69 | hide-all then show-active gives: active weapons shown, other listed weapons hidden, the rest unchanged |
| InventorySys.SelectActiveSlot | source/common/systems/inventory-controller.hpp:23-42 | the component's slot becomes SelectSlot of its old value; the slots are kept |
| InventorySys.UpdateInventory | source/common/systems/inventory-controller.hpp:20-69 | the slot is selected and every renderer flag becomes its Visibility |
| InventorySys.AfterPassesUnlisted | source/common/systems/inventory-controller.hpp:19-70 | an entity that no inventory lists keeps its renderer flag through all the inventories' passes |
| InventorySys.InventoryControllerSystem.Update | source/common/systems/inventory-controller.hpp:18-71 | every inventory's slot becomes SelectSlot of its old one; every renderer flag becomes the result of all the inventories' passes in world order |
| CharacterSys.IsWalking | source/common/systems/character-controller.hpp:112-115 | walking iff one of W, S, A, D is held |
| CharacterSys.TargetClip | source/common/systems/character-controller.hpp:120-147 | one of walk, GunWalk, idle and GunIdle: a walking clip iff walking, a bare-handed clip iff slot 0 |
| CharacterSys.CharacterControllerSystem.constructor | source/common/systems/character-controller.hpp:25 | not walking at first |
| CharacterSys.CharacterControllerSystem.Enter | source/common/systems/character-controller.hpp:29-32 | entering resets the walking state |
| CharacterSys.CharacterControllerSystem.AnimateCharacter | source/common/systems/character-controller.hpp:112-149 | an enabled animator switches to the target clip at time 0, playing, with the matrices posed at time 0, when it has the clip and is not showing it; otherwise the clip and the matrices are kept; the walking state is stored |
| AnimationSys.AnimationSystem.constructor | source/common/systems/animation-system.hpp:14 | not yet initialised |
| AnimationSys.AnimationSystem.Reset | source/common/systems/animation-system.hpp:50-52 | the next update runs the init pass again |
| AnimationSys.AnimationSystem.InitEntity | source/common/systems/animation-system.hpp:22-35 | an enabled, uninitialised animator is initialised, and its skeletal mesh, if any, goes to the entity's renderer; others are unchanged |
| AnimationSys.AnimationSystem.InitStep | source/common/systems/animation-system.hpp:21-36 | one entity's init step leaves every other entity's animator and renderer unchanged |
| AnimationSys.AnimationSystem.InitPass | source/common/systems/animation-system.hpp:20-38 | every entity ends as InitDone describes, and the animators stay consistent and separate |
| AnimationSys.AnimationSystem.UpdateEntity | source/common/systems/animation-system.hpp:42-45 | an enabled animator with a clip takes one updateAnimation step; any other is unchanged |
| AnimationSys.AnimationSystem.UpdateStep | source/common/systems/animation-system.hpp:41-46 | one entity's update step leaves every other animator unchanged |
| AnimationSys.AnimationSystem.UpdatePass | source/common/systems/animation-system.hpp:41-46 | every animator ends as UpdateDone describes |
| AnimationSys.Advanced | source/common/systems/animation-system.hpp:42-45 | definition: an enabled animator with a clip has taken one updateAnimation step from a given clock; any other animator still shows that clock |
| AnimationSys.UpdateDone | source/common/systems/animation-system.hpp:42-45 | definition: the component is unchanged and its animator has advanced from its clock before the step |
| AnimationSys.AnimationSystem.FirstFrame | source/common/systems/animation-system.hpp:20-46 | the init pass then the update pass: every entity ends as InitDone describes, and each animator has advanced one step from the clock the init pass left |
| AnimationSys.AnimationSystem.LaterFrame | source/common/systems/animation-system.hpp:41-46 | a frame after the first: every animator ends as UpdateDone describes, stepping from its clock before the call |
| AnimationSys.AnimationSystem.Update | source/common/systems/animation-system.hpp:18-47 | on the first frame every entity ends as InitDone describes and the flag is set; on every frame each enabled animator with a clip takes one updateAnimation step from its clock between the two passes, and every other animator keeps that clock; after the first frame those clocks are the ones before the call, so every animator ends as UpdateDone describes |

## Left out

- glm's floating-point operations (matrix product, normalize, slerp, toMat4) are uninterpreted fields of `LinAlg.Glm`; all arithmetic is over the reals, so float rounding, the float cast of Assimp's double timestamps and the rounding of `fmod` and `glm::radians` are not modelled (`RadiansPerDegree` is an exact rational).
- The sphere's trigonometry (cos and sin of pitch and yaw) is the `surface` parameter of `MeshUtils.Sphere`; only where each grid point goes and the triangle indices are modelled.
- File input (`Assimp::Importer`, `tinyobj::LoadObj`) is a `Reader` parameter returning an `Importer.Scene`, or the parsed tinyobj result; console output, the GPU objects behind `our::Mesh`, destructors and `delete` are not modelled. Each loader's `ReadFile` post-processing flags are folded into `read`: Triangulate, GenNormals and JoinIdenticalVertices for both mesh loaders, plus PreTransformVertices for `loadMesh` only (source/common/mesh/mesh-utils.cpp:38-42 and 122-126), and Triangulate alone for the clip loader (source/common/animation/animation.hpp:45-46), which tests only for a missing scene or root. One `read` serves all three loaders, so the model gives the same scene for the same path whichever loader reads it, where the source's loaders see differently post-processed scenes.
- The keyboard and the mouse wheel are the `Input` and `held` parameters.
- The animator methods `getBoneGlobalTransform`, `getBoneNames`, `isAnimationFinished` and `getAnimationProgress` (called at components/animator.hpp:60, 65, 78 and 81) are not defined in the repository and are not part of this model; the bone-attachment system therefore takes the bone lookup as the `BoneLookup` parameter.
- JSON parsing is modelled on typed configurations (`AnimatorConfig`, `AttachmentConfig`); nlohmann's exceptions for wrongly typed values, `InventoryComponent::deserialize` and the `getID` names are not modelled.
- The movement part of the character controller's update (walking, jumping and facing at source/common/systems/character-controller.hpp:35-109, and the lookup of the character and the camera) is not part of this model; only the animation choice that follows it is, as `AnimateCharacter`.
- A world is the sequence of its entities and each component is a field of its entity; `getComponent` and parent chains deeper than one level are not modelled.
- Integers are unbounded: the `GLuint` element indices, the `int` bone counter and slot arithmetic, and the `uint8_t` colour casts do not wrap or truncate here; a colour channel is the real value handed to the cast.
- Keyframes.PositionAtAsWritten: the as-written (unguarded) interpolation factor is modelled for positions only; `InterpolatePosition`, `InterpolateRotation`, `InterpolateScaling`, `PositionAt`, `ScaleAt` and `RotationAt` all use the corrected `ScaleFactor`.
- Keyframes.Bone.InterpolatePosition: uses the guarded `ScaleFactor`, which yields factor 0 (the earlier key) wherever the source's divisor `nextTimeStamp - lastTimeStamp` is zero over the positions: at or after the last key (p1Index clamped to p0Index), when t < ts[0] == ts[1], and for any two equal adjacent timestamps the scan selects; there the source produces NaN or an infinity.
- Keyframes.Bone.InterpolateRotation: uses the guarded `ScaleFactor`, which yields factor 0 (the earlier key) wherever the source's divisor `nextTimeStamp - lastTimeStamp` is zero over the rotations: at or after the last key (p1Index clamped to p0Index), when t < ts[0] == ts[1], and for any two equal adjacent timestamps the scan selects; there the source produces NaN or an infinity.
- Keyframes.Bone.InterpolateScaling: uses the guarded `ScaleFactor`, which yields factor 0 (the earlier key) wherever the source's divisor `nextTimeStamp - lastTimeStamp` is zero over the scales: at or after the last key (p1Index clamped to p0Index), when t < ts[0] == ts[1], and for any two equal adjacent timestamps the scan selects; there the source produces NaN or an infinity.
- Keyframes.Bone.Update: requires at least one key of each kind: with an empty track the source's scan returns -1, p1Index = 0 is clamped back to -1, and it reads `positions[-1]` (source/common/animation/bone.hpp:127-130), which the model does not describe.
- Playback.Animator.UpdateAnimation: requires a posable clip (well-formed hierarchy, keyed bones, non-negative ids), which is where the `ClipKeyed` and `ClipsKeyed` requirements on the reader come from; it uses the corrected `NextTime`, which holds the clock for a zero-length clip where the source produces NaN (see Findings).
- Clip.Animation.constructor: after an early return the source leaves `duration` and `ticksPerSecond` uninitialised, which the model leaves as arbitrary values; the root node is the corrected `DefaultRoot` (see Findings).
- MeshUtils.LoadMesh: the bone slots of a default-constructed vertex come from `vertex.hpp`, which is not part of this model, so they are the `slots` parameter (likewise for `LoadObj`).
- MeshUtils.LoadObj: requires every attribute index to be inside the arrays, which the source reads unchecked (undefined behaviour otherwise).
- CharacterSys.CharacterControllerSystem.AnimateCharacter: requires an inventory whenever the animator is enabled, because the source dereferences it unchecked.
- InventorySys.CRem: C's `%` with the divisor fixed at 5, the only divisor the source uses.
- AnimationSys.AnimationSystem.Update: on the first frame each animator steps from the clock the init pass leaves, and the contract does not relate that clock to the one before the frame; what the init pass does to a clock is stated only by Initialize's own contract.

## Findings

| source | as written | input that shows it | evidently intended | confidence | as-written member | corrected member |
|---|---|---|---|---|---|---|
| source/common/animation/bone.hpp:118-135 | at or after the last key, p1Index equals p0Index, so getScaleFactor divides by a zero frame difference | position keys at times 0 and 5, sampled at time 5 (0/0) or later | hold the last key's value | not executed | Keyframes.PositionAsWrittenAtLastKey | Keyframes.ScaleFactor |
| source/common/animation/animator.hpp:30-31 | `fmod(currentTime, duration)` with a zero duration gives NaN, and the clock stays NaN from then on | a clip whose duration is 0 (a clip that failed to load leaves its duration uninitialised, so it may be 0), played with any step | hold the time, or do not advance a zero-length clip | not executed | Playback.ZeroDurationIsNaN | Playback.NextTime |
| source/common/animation/animation.hpp:22-54 | an early return leaves `rootNode.childrenCount` uninitialised, and calculateBoneTransform loops up to that count over an empty `children` vector | a clip path the importer cannot read, then selected by setAnimation, with a leftover count of 1 | a root with a children count of 0 | not executed | Clip.DefaultRootAsWrittenIllFormed | Clip.DefaultRoot |
