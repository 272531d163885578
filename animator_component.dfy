/** AnimatorComponent: the per-entity owner of an animator, the shared bone
    table, the named clips and the skeletal mesh.  Clip selection by name,
    configuration from the scene file and one-time loading. */
module AnimatorComp {
  import opened LinAlg
  import opened Wrappers
  import opened Strings
  import Importer
  import opened Keyframes
  import opened Clip
  import opened Playback
  import opened MeshUtils

  /** The component's entry in the scene file, already typed.  A value
      that is not a JSON object is `NotAnObject`; `animations` is `None`
      when the key is absent or does not hold an object, and otherwise
      lists that object's items in iteration order. */
  datatype AnimatorConfig =
    | NotAnObject
    | Config(mesh: Option<string>, animations: Option<seq<(string, string)>>,
             animation: Option<string>, enabled: Option<bool>)

  /** The path table after assigning each item in turn. */
  function WithEntries(m: map<string, string>, items: seq<(string, string)>): map<string, string>
    decreases |items|
  {
    if items == [] then m
    else WithEntries(m, items[..|items| - 1])[items[|items| - 1].0 := items[|items| - 1].1]
  }

  /** `k` is the name of some item. */
  predicate Named(items: seq<(string, string)>, k: string) {
    exists i :: 0 <= i < |items| && items[i].0 == k
  }

  predicate DistinctNames(items: seq<(string, string)>) {
    forall i, j :: 0 <= i < j < |items| ==> items[i].0 != items[j].0
  }

  /** The table holds the old names and the items' names, each item's path
      under its own name (names in a JSON object are distinct), and every
      other entry as it was. */
  lemma {:induction false} WithEntriesSpec(m: map<string, string>, items: seq<(string, string)>)
    requires DistinctNames(items)
    ensures forall k :: k in WithEntries(m, items) <==> k in m || Named(items, k)
    ensures forall i :: 0 <= i < |items| ==>
      items[i].0 in WithEntries(m, items) && WithEntries(m, items)[items[i].0] == items[i].1
    ensures forall k :: k in m && !Named(items, k) ==> k in WithEntries(m, items) && WithEntries(m, items)[k] == m[k]
    decreases |items|
  {
    if items != [] {
      var init := items[..|items| - 1];
      var last := items[|items| - 1];
      WithEntriesSpec(m, init);
      forall k
        ensures Named(items, k) <==> Named(init, k) || k == last.0
      {
        if Named(items, k) {
          var i :| 0 <= i < |items| && items[i].0 == k;
          if i < |init| {
            assert init[i].0 == k;
          }
        }
        if Named(init, k) {
          var i :| 0 <= i < |init| && init[i].0 == k;
          assert items[i].0 == k;
        }
      }
      forall i | 0 <= i < |items| - 1
        ensures items[i].0 in WithEntries(m, items) && WithEntries(m, items)[items[i].0] == items[i].1
      {
        assert init[i] == items[i];
        assert Named(init, items[i].0);
      }
    }
  }

  /** The path table that deserialize leaves: the "animations" items,
      then the legacy "animation" key stored under "default". */
  function PathsAfter(paths: map<string, string>, config: AnimatorConfig): map<string, string>
    requires config.Config?
  {
    var p := WithEntries(paths, config.animations.GetOr([]));
    if config.animation.Some? then p["default" := config.animation.value] else p
  }

  /** The legacy key overrides an "animations" entry named "default"; every
      other item lands under its own name. */
  lemma PathsAfterSpec(paths: map<string, string>, config: AnimatorConfig)
    requires config.Config? && DistinctNames(config.animations.GetOr([]))
    ensures config.animation.Some? ==> PathsAfter(paths, config)["default"] == config.animation.value
    ensures forall i :: 0 <= i < |config.animations.GetOr([])| ==>
      var item := config.animations.GetOr([])[i];
      item.0 in PathsAfter(paths, config) &&
      (item.0 != "default" || config.animation.None? ==> PathsAfter(paths, config)[item.0] == item.1)
    ensures forall k :: k in paths && k != "default" && !Named(config.animations.GetOr([]), k) ==>
      k in PathsAfter(paths, config) && PathsAfter(paths, config)[k] == paths[k]
  {
    WithEntriesSpec(paths, config.animations.GetOr([]));
    var items := config.animations.GetOr([]);
    forall i | 0 <= i < |items|
      ensures items[i].0 in WithEntries(paths, items)
    {
      assert Named(items, items[i].0);
    }
  }

  /** A clip the importer hands back is usable by the pose walk: every
      channel has at least one key of each kind. */
  ghost predicate ClipKeyed(scene: Option<Importer.Scene>) {
    Usable(scene) ==>
      forall i :: 0 <= i < |scene.value.animations[0].channels| ==> Keyed(scene.value.animations[0].channels[i])
  }

  /** What a clip loaded from `scene` holds, apart from the bone table. */
  ghost predicate LoadedFrom(a: Animation, scene: Option<Importer.Scene>) {
    if Usable(scene) then
      var anim := scene.value.animations[0];
      && a.duration == anim.duration
      && a.ticksPerSecond == TicksPerSecond(anim.ticksPerSecond)
      && Mirrors(a.rootNode, scene.value.root.value)
      && |a.bones| == |anim.channels|
      && forall i :: 0 <= i < |anim.channels| ==> a.bones[i].Copies(anim.channels[i]) && a.bones[i].name == anim.channels[i].nodeName
    else
      a.bones == []
  }

  /** The shared bone table after loading one clip. */
  ghost function AfterClip(m: map<string, BoneInfo>, scene: Option<Importer.Scene>): map<string, BoneInfo> {
    if Usable(scene) then Register(m, ChannelCandidates(scene.value.animations[0].channels), BoneCount(m)).0 else m
  }

  /** The shared bone table after loading the clips named by `names`, in turn. */
  ghost function ClipsTable(m: map<string, BoneInfo>, read: Importer.Reader, paths: map<string, string>,
                            names: seq<string>): map<string, BoneInfo>
    decreases |names|
  {
    if names == [] then m
    else
      var next := if names[0] in paths then AfterClip(m, read(paths[names[0]])) else m;
      ClipsTable(next, read, paths, names[1..])
  }

  lemma ClipsTableCons(m: map<string, BoneInfo>, read: Importer.Reader, paths: map<string, string>,
                       k: string, rest: seq<string>)
    requires k in paths
    ensures ClipsTable(m, read, paths, [k] + rest) == ClipsTable(AfterClip(m, read(paths[k])), read, paths, rest)
  {
    assert ([k] + rest)[1..] == rest;
  }

  /** The skeletal mesh and the bone table after the mesh step of
      initialize: nothing happens for an empty path, and a failed load
      stores no mesh. */
  ghost function AfterMesh(meshPath: string, read: Importer.Reader, m: map<string, BoneInfo>,
                           mesh: Option<Mesh>): (Option<Mesh>, map<string, BoneInfo>)
  {
    if meshPath == "" then (mesh, m)
    else if !Loadable(read(meshPath)) then (None, m)
    else
      var meshes := read(meshPath).value.meshes;
      var r := SkinAll(Skin([], m, 0), meshes);
      (Some(Mesh(r.vertices, Elements(meshes))), r.table)
  }

  /** The clip initialize starts with: "idle", else "default", else the
      first name in map order. */
  ghost function InitialClip(names: set<string>): (r: Option<string>)
    ensures r.None? <==> names == {}
    ensures r.Some? ==> r.value in names
    ensures "idle" in names ==> r == Some("idle")
    ensures "idle" !in names && "default" in names ==> r == Some("default")
    ensures "idle" !in names && "default" !in names && r.Some? ==> IsLeast(r.value, names)
  {
    if "idle" in names then Some("idle")
    else if "default" in names then Some("default")
    else if names == {} then None
    else
      LeastExists(names);
      var k :| IsLeast(k, names);
      Some(k)
  }

  /** The first clip is always the first name in map order unless "idle"
      or "default" is present. */
  lemma InitialClipIsFirstOtherwise(names: set<string>, k: string)
    requires "idle" !in names && "default" !in names && IsLeast(k, names)
    ensures InitialClip(names) == Some(k)
  {
    LeastUnique(k, InitialClip(names).value, names);
  }

  /** The state of the loading loop with the names in `todo` still to
      load: the clips loaded so far, the old ones left alone, and the
      table on its way to `final`, the table of the whole loop. */
  ghost predicate LoadProgress(read: Importer.Reader, animations0: map<string, Animation>,
                               final: map<string, BoneInfo>, todo: set<string>, paths: map<string, string>,
                               animations: map<string, Animation>, entries: map<string, BoneInfo>)
  {
    && todo <= paths.Keys
    && animations.Keys == animations0.Keys + (paths.Keys - todo)
    && (forall n :: n in paths.Keys - todo ==> LoadedFrom(animations[n], read(paths[n])))
    && (forall n :: n in animations0 && n !in paths.Keys - todo ==> animations[n] == animations0[n])
    && final == ClipsTable(entries, read, paths, SortedKeys(todo))
  }

  /** Loading the least name still to load, into the table, keeps the
      loop's state with that name done. */
  lemma LoadProgressStep(read: Importer.Reader, animations0: map<string, Animation>,
                         final: map<string, BoneInfo>, todo: set<string>, paths: map<string, string>,
                         animations: map<string, Animation>, entries: map<string, BoneInfo>,
                         name: string, anim: Animation)
    requires LoadProgress(read, animations0, final, todo, paths, animations, entries) && IsLeast(name, todo)
    requires LoadedFrom(anim, read(paths[name]))
    ensures LoadProgress(read, animations0, final, todo - {name}, paths, animations[name := anim],
                         AfterClip(entries, read(paths[name])))
  {
    LoadedStep(read, paths, animations, todo, name, anim);
    KeptStep(animations0, paths, animations, todo, name, anim);
    TableStep(read, final, todo, paths, entries, name);
  }

  /** The loaded clips, with one more. */
  lemma LoadedStep(read: Importer.Reader, paths: map<string, string>, animations: map<string, Animation>,
                   todo: set<string>, name: string, anim: Animation)
    requires name in todo && todo <= paths.Keys && LoadedFrom(anim, read(paths[name]))
    requires forall n :: n in paths.Keys - todo ==> n in animations && LoadedFrom(animations[n], read(paths[n]))
    ensures forall n :: n in paths.Keys - (todo - {name}) ==> LoadedFrom(animations[name := anim][n], read(paths[n]))
  {
    forall n | n in paths.Keys - (todo - {name}) ensures LoadedFrom(animations[name := anim][n], read(paths[n])) {
      if n != name {
        assert n in paths.Keys - todo;
      }
    }
  }

  /** The old clips not yet replaced, with one fewer. */
  lemma KeptStep(animations0: map<string, Animation>, paths: map<string, string>, animations: map<string, Animation>,
                 todo: set<string>, name: string, anim: Animation)
    requires name in todo && todo <= paths.Keys
    requires animations.Keys == animations0.Keys + (paths.Keys - todo)
    requires forall n :: n in animations0 && n !in paths.Keys - todo ==> animations[n] == animations0[n]
    ensures animations[name := anim].Keys == animations0.Keys + (paths.Keys - (todo - {name}))
    ensures forall n :: n in animations0 && n !in paths.Keys - (todo - {name}) ==>
      animations[name := anim][n] == animations0[n]
  {
  }

  /** The table, one clip further along the name order. */
  lemma TableStep(read: Importer.Reader, final: map<string, BoneInfo>, todo: set<string>, paths: map<string, string>,
                  entries: map<string, BoneInfo>, name: string)
    requires IsLeast(name, todo) && todo <= paths.Keys
    requires final == ClipsTable(entries, read, paths, SortedKeys(todo))
    ensures final == ClipsTable(AfterClip(entries, read(paths[name])), read, paths, SortedKeys(todo - {name}))
  {
    SortedKeysStep(todo, name);
    ClipsTableCons(entries, read, paths, name, SortedKeys(todo - {name}));
  }

  class AnimatorComponent {
    const animator: Animator
    /** boneInfoMap, shared by the skeletal mesh and every clip. */
    const boneTable: BoneTable
    var animations: map<string, Animation>
    var currentAnimation: Animation?
    var currentAnimationName: string
    var skeletalMesh: Option<Mesh>
    var meshPath: string
    var animationPaths: map<string, string>
    var enabled: bool
    var initialized: bool
    ghost var Repr: set<object>

    ghost predicate Valid()
      reads this, Repr
    {
      && this in Repr && animator in Repr && animator.finalBoneMatrices in Repr && boneTable in Repr
      && animator.Valid() && boneTable.Valid()
      && animator.currentAnimation == currentAnimation
      && BonesOf(currentAnimation) <= Repr
      && forall n :: n in animations ==> animations[n].Posable() && BonesOf(animations[n]) <= Repr
    }

    /** The defaults: no clips, no mesh, enabled, not yet initialised, and
        an animator with no clip. */
    constructor (ops: Glm)
      ensures Valid() && fresh(Repr)
      ensures animations == map[] && currentAnimation == null && currentAnimationName == ""
      ensures skeletalMesh == None && meshPath == "" && animationPaths == map[]
      ensures enabled && !initialized && boneTable.entries == map[]
      ensures animator.ops == ops && animator.currentTime == 0.0 && !animator.playing
      ensures forall i :: 0 <= i < MAX_BONES ==> animator.finalBoneMatrices[i] == Identity
    {
      animator := new Animator(null, ops);
      boneTable := new BoneTable();
      animations := map[];
      currentAnimation := null;
      currentAnimationName := "";
      skeletalMesh := None;
      meshPath := "";
      animationPaths := map[];
      enabled := true;
      initialized := false;
      new;
      Repr := {this, animator, animator.finalBoneMatrices, boneTable};
    }

    /** hasAnimation */
    predicate HasAnimation(name: string)
      reads this
    {
      name in animations
    }

    /** setAnimation: switches only to a known clip other than the current
        one, restarting the animator on it at time 0, stopped. */
    method SetAnimation(name: string)
      requires Valid()
      modifies this, animator, animator.finalBoneMatrices, BonesOf(if name in animations then animations[name] else null)
      ensures Valid() && Repr == old(Repr)
      ensures animations == old(animations) && skeletalMesh == old(skeletalMesh) && meshPath == old(meshPath)
      ensures animationPaths == old(animationPaths) && enabled == old(enabled) && initialized == old(initialized)
      ensures animator.deltaTime == old(animator.deltaTime)
      ensures old(HasAnimation(name)) && name != old(currentAnimationName) ==>
        && currentAnimationName == name && currentAnimation == animations[name]
        && animator.currentTime == 0.0 && !animator.playing
        && animator.finalBoneMatrices[..] == Pose(animations[name], 0.0, animator.ops, old(animator.finalBoneMatrices[..]))
      ensures !(old(HasAnimation(name)) && name != old(currentAnimationName)) ==>
        && currentAnimationName == old(currentAnimationName) && currentAnimation == old(currentAnimation)
        && animator.currentTime == old(animator.currentTime) && animator.playing == old(animator.playing)
        && animator.finalBoneMatrices[..] == old(animator.finalBoneMatrices[..])
    {
      if name in animations && name != currentAnimationName {
        currentAnimation := animations[name];
        currentAnimationName := name;
        animator.PlayAnimation(currentAnimation);
      }
    }

    /** play: delegates to the animator. */
    method Play()
      requires Valid()
      modifies animator
      ensures Valid() && animator.playing
      ensures animator.currentTime == old(animator.currentTime) && animator.deltaTime == old(animator.deltaTime)
      ensures animator.currentAnimation == old(animator.currentAnimation)
    {
      animator.Play();
    }

    /** stop: delegates to the animator. */
    method Stop()
      requires Valid()
      modifies animator
      ensures Valid() && !animator.playing
      ensures animator.currentTime == old(animator.currentTime) && animator.deltaTime == old(animator.deltaTime)
      ensures animator.currentAnimation == old(animator.currentAnimation)
    {
      animator.Stop();
    }

    /** reset: delegates to the animator (time 0, re-posed, flag kept). */
    method Reset()
      requires Valid()
      modifies animator, animator.finalBoneMatrices, BonesOf(currentAnimation)
      ensures Valid() && animator.currentTime == 0.0
      ensures animator.playing == old(animator.playing) && animator.deltaTime == old(animator.deltaTime)
      ensures animator.currentAnimation == old(animator.currentAnimation)
      ensures currentAnimation != null ==>
        animator.finalBoneMatrices[..] == Pose(currentAnimation, 0.0, animator.ops, old(animator.finalBoneMatrices[..]))
      ensures currentAnimation == null ==> animator.finalBoneMatrices[..] == old(animator.finalBoneMatrices[..])
    {
      animator.Reset();
    }

    /** update: delegates to the animator's updateAnimation. */
    method Update(deltaTime: real)
      requires Valid()
      modifies animator, animator.finalBoneMatrices, BonesOf(currentAnimation)
      ensures Valid() && animator.deltaTime == deltaTime
      ensures animator.currentAnimation == old(animator.currentAnimation) && animator.playing == old(animator.playing)
      ensures currentAnimation != null && animator.playing ==>
        && animator.currentTime == NextTime(old(animator.currentTime), Ticks(currentAnimation, deltaTime),
                                            currentAnimation.duration)
        && animator.finalBoneMatrices[..] ==
           Pose(currentAnimation, animator.currentTime, animator.ops, old(animator.finalBoneMatrices[..]))
      ensures !(currentAnimation != null && animator.playing) ==>
        animator.currentTime == old(animator.currentTime) &&
        animator.finalBoneMatrices[..] == old(animator.finalBoneMatrices[..])
    {
      animator.UpdateAnimation(deltaTime);
    }

    /** deserialize: a non-object changes nothing; each key changes its
        field only when present. */
    method Deserialize(config: AnimatorConfig)
      modifies this
      ensures config.NotAnObject? ==> unchanged(this)
      ensures config.Config? ==>
        && meshPath == config.mesh.GetOr(old(meshPath))
        && animationPaths == PathsAfter(old(animationPaths), config)
        && enabled == config.enabled.GetOr(old(enabled))
      ensures animations == old(animations)
      ensures currentAnimation == old(currentAnimation) && currentAnimationName == old(currentAnimationName)
      ensures skeletalMesh == old(skeletalMesh) && initialized == old(initialized) && Repr == old(Repr)
    {
      if config.NotAnObject? {
        return;
      }
      if config.mesh.Some? {
        meshPath := config.mesh.value;
      }
      var paths := animationPaths;
      if config.animations.Some? {
        var items := config.animations.value;
        for i := 0 to |items|
          invariant paths == WithEntries(old(animationPaths), items[..i])
        {
          assert items[..i + 1][..i] == items[..i];
          paths := paths[items[i].0 := items[i].1];
        }
        assert items[..|items|] == items;
      }
      animationPaths := paths;
      if config.animation.Some? {
        animationPaths := animationPaths["default" := config.animation.value];
      }
      if config.enabled.Some? {
        enabled := config.enabled.value;
      }
    }

    /** The loading loop's state, read off the component. */
    ghost predicate Progress(read: Importer.Reader, animations0: map<string, Animation>,
                             final: map<string, BoneInfo>, todo: set<string>)
      reads this, boneTable
    {
      LoadProgress(read, animations0, final, todo, animationPaths, animations, boneTable.entries)
    }

    /** `new Animation(path, boneInfoMap)`, its contract summarised. */
    static method NewClip(path: string, read: Importer.Reader, boneTable: BoneTable) returns (anim: Animation)
      requires boneTable.Valid() && ClipKeyed(read(path))
      modifies boneTable
      ensures boneTable.Valid() && anim.Posable() && fresh(BonesOf(anim))
      ensures LoadedFrom(anim, read(path))
      ensures boneTable.entries == AfterClip(old(boneTable.entries), read(path))
    {
      anim := new Animation(path, read, boneTable);
    }

    /** One clip of the loading loop: the first name still to load, loaded
        from its path with the shared table and stored under its name. */
    method LoadClip(name: string, read: Importer.Reader, ghost animations0: map<string, Animation>,
                    ghost final: map<string, BoneInfo>, ghost todo: set<string>)
      requires Valid() && Progress(read, animations0, final, todo) && IsLeast(name, todo)
      requires ClipKeyed(read(animationPaths[name]))
      modifies this, boneTable
      ensures Valid() && fresh(Repr - old(Repr)) && animationPaths == old(animationPaths)
      ensures Progress(read, animations0, final, todo - {name})
      ensures currentAnimation == old(currentAnimation) && currentAnimationName == old(currentAnimationName)
      ensures skeletalMesh == old(skeletalMesh) && meshPath == old(meshPath)
      ensures enabled == old(enabled) && initialized == old(initialized)
    {
      ghost var entries := boneTable.entries;
      var anim := NewClip(animationPaths[name], read, boneTable);
      LoadProgressStep(read, animations0, final, todo, animationPaths, animations, entries, name, anim);
      animations := animations[name := anim];
      Repr := Repr + BonesOf(anim);
    }

    /** The default-clip choice at the end of initialize. */
    method ChooseInitialClip()
      requires Valid()
      modifies this, animator, animator.finalBoneMatrices, Repr
      ensures Valid() && Repr == old(Repr)
      ensures animations == old(animations) && skeletalMesh == old(skeletalMesh) && meshPath == old(meshPath)
      ensures animationPaths == old(animationPaths) && enabled == old(enabled) && initialized == old(initialized)
      ensures boneTable.entries == old(boneTable.entries)
      ensures var pick := InitialClip(animations.Keys);
        if pick.Some? && pick.value != old(currentAnimationName) then
          && currentAnimationName == pick.value && currentAnimation == animations[pick.value]
          && animator.currentTime == 0.0 && !animator.playing
          && animator.finalBoneMatrices[..] ==
             Pose(animations[pick.value], 0.0, animator.ops, old(animator.finalBoneMatrices[..]))
        else
          && currentAnimationName == old(currentAnimationName) && currentAnimation == old(currentAnimation)
          && animator.currentTime == old(animator.currentTime) && animator.playing == old(animator.playing)
          && animator.finalBoneMatrices[..] == old(animator.finalBoneMatrices[..])
    {
      if "idle" in animations {
        SetAnimation("idle");
      } else if "default" in animations {
        SetAnimation("default");
      } else if animations != map[] {
        var first := LeastKey(animations.Keys);
        InitialClipIsFirstOtherwise(animations.Keys, first);
        SetAnimation(first);
      }
    }

    /** initialize: runs once.  A non-empty mesh path loads the skeletal
        mesh into the bone table; when the table then holds any bone, every
        configured clip is loaded, in name order, with that table, and the
        initial clip is chosen.  The flag is set in every case. */
    method Initialize(read: Importer.Reader)
      requires Valid()
      requires forall n :: n in animationPaths ==> ClipKeyed(read(animationPaths[n]))
      modifies Repr
      ensures Valid() && fresh(Repr - old(Repr))
      ensures initialized && meshPath == old(meshPath) && animationPaths == old(animationPaths) && enabled == old(enabled)
      ensures old(initialized) ==>
        && unchanged(this) && boneTable.entries == old(boneTable.entries)
        && animator.currentTime == old(animator.currentTime) && animator.playing == old(animator.playing)
        && animator.finalBoneMatrices[..] == old(animator.finalBoneMatrices[..])
      ensures !old(initialized) ==>
        var (mesh, table) := AfterMesh(meshPath, read, old(boneTable.entries), old(skeletalMesh));
        && skeletalMesh == mesh
        && (table == map[] ==>
             && boneTable.entries == table && animations == old(animations)
             && currentAnimation == old(currentAnimation) && currentAnimationName == old(currentAnimationName)
             && animator.currentTime == old(animator.currentTime) && animator.playing == old(animator.playing)
             && animator.finalBoneMatrices[..] == old(animator.finalBoneMatrices[..]))
        && (table != map[] ==> Loaded(read, old(animations), table))
        && (table != map[] ==>
             var pick := InitialClip(animations.Keys);
             if pick.Some? && pick.value != old(currentAnimationName) then
               && currentAnimationName == pick.value && currentAnimation == animations[pick.value]
               && animator.currentTime == 0.0 && !animator.playing
               && animator.finalBoneMatrices[..] ==
                  Pose(animations[pick.value], 0.0, animator.ops, old(animator.finalBoneMatrices[..]))
             else
               && currentAnimationName == old(currentAnimationName) && currentAnimation == old(currentAnimation)
               && animator.currentTime == old(animator.currentTime) && animator.playing == old(animator.playing)
               && animator.finalBoneMatrices[..] == old(animator.finalBoneMatrices[..]))
    {
      if initialized {
        return;
      }
      LoadMeshStep(read);
      LoadClipsStep(read);
      initialized := true;
    }

    /** The mesh step of initialize: a non-empty mesh path loads the
        skeletal mesh into the bone table. */
    method LoadMeshStep(read: Importer.Reader)
      requires Valid()
      modifies this, boneTable
      ensures Valid() && Repr == old(Repr)
      ensures (skeletalMesh, boneTable.entries) == AfterMesh(meshPath, read, old(boneTable.entries), old(skeletalMesh))
      ensures meshPath == old(meshPath) && animationPaths == old(animationPaths) && enabled == old(enabled)
      ensures initialized == old(initialized) && animations == old(animations)
      ensures currentAnimation == old(currentAnimation) && currentAnimationName == old(currentAnimationName)
    {
      if meshPath != "" {
        ghost var before := boneTable.entries;
        skeletalMesh := LoadSkeletalMesh(meshPath, read, boneTable);
        if Loadable(read(meshPath)) {
          SkinAllPacked(Skin([], before, 0), read(meshPath).value.meshes);
        }
      }
    }

    /** The clip step of initialize: with a non-empty table, every
        configured clip is loaded and the initial clip chosen; with an
        empty one, nothing changes. */
    method LoadClipsStep(read: Importer.Reader)
      requires Valid()
      requires forall n :: n in animationPaths ==> ClipKeyed(read(animationPaths[n]))
      modifies Repr
      ensures Valid() && fresh(Repr - old(Repr))
      ensures meshPath == old(meshPath) && animationPaths == old(animationPaths) && enabled == old(enabled)
      ensures initialized == old(initialized) && skeletalMesh == old(skeletalMesh)
      ensures old(boneTable.entries) == map[] ==>
        && boneTable.entries == map[] && animations == old(animations)
        && currentAnimation == old(currentAnimation) && currentAnimationName == old(currentAnimationName)
        && animator.currentTime == old(animator.currentTime) && animator.playing == old(animator.playing)
        && animator.finalBoneMatrices[..] == old(animator.finalBoneMatrices[..])
      ensures old(boneTable.entries) != map[] ==> Loaded(read, old(animations), old(boneTable.entries))
      ensures old(boneTable.entries) != map[] ==>
        var pick := InitialClip(animations.Keys);
        if pick.Some? && pick.value != old(currentAnimationName) then
          && currentAnimationName == pick.value && currentAnimation == animations[pick.value]
          && animator.currentTime == 0.0 && !animator.playing
          && animator.finalBoneMatrices[..] ==
             Pose(animations[pick.value], 0.0, animator.ops, old(animator.finalBoneMatrices[..]))
        else
          && currentAnimationName == old(currentAnimationName) && currentAnimation == old(currentAnimation)
          && animator.currentTime == old(animator.currentTime) && animator.playing == old(animator.playing)
          && animator.finalBoneMatrices[..] == old(animator.finalBoneMatrices[..])
    {
      if boneTable.entries != map[] {
        LoadClips(read);
        ChooseInitialClip();
      }
    }

    /** The loading loop of initialize: one clip per configured name, in
        name order, each with the shared table. */
    method LoadClips(read: Importer.Reader)
      requires Valid()
      requires forall n :: n in animationPaths ==> ClipKeyed(read(animationPaths[n]))
      modifies this, boneTable
      ensures Valid() && fresh(Repr - old(Repr))
      ensures meshPath == old(meshPath) && animationPaths == old(animationPaths) && enabled == old(enabled)
      ensures Loaded(read, old(animations), old(boneTable.entries))
      ensures currentAnimation == old(currentAnimation) && currentAnimationName == old(currentAnimationName)
      ensures skeletalMesh == old(skeletalMesh) && initialized == old(initialized)
    {
      ghost var final := ClipsTable(boneTable.entries, read, animationPaths, SortedKeys(animationPaths.Keys));
      ghost var animations0 := animations;
      var todo := animationPaths.Keys;
      while todo != {}
        invariant Valid() && fresh(Repr - old(Repr))
        invariant Progress(read, animations0, final, todo)
        invariant currentAnimation == old(currentAnimation) && currentAnimationName == old(currentAnimationName)
        invariant skeletalMesh == old(skeletalMesh) && initialized == old(initialized)
        invariant meshPath == old(meshPath) && animationPaths == old(animationPaths) && enabled == old(enabled)
        decreases todo
      {
        var name := LeastKey(todo);
        LoadClip(name, read, animations0, final, todo);
        todo := todo - {name};
      }
      assert SortedKeys({}) == [];
    }

    /** The clips after the loading loop: the old clips, with one freshly
        loaded clip per configured name replacing any of that name, and
        the table extended by every clip in name order. */
    ghost predicate Loaded(read: Importer.Reader, animations0: map<string, Animation>, table: map<string, BoneInfo>)
      reads this, boneTable
    {
      && animations.Keys == animations0.Keys + animationPaths.Keys
      && (forall n :: n in animationPaths ==> LoadedFrom(animations[n], read(animationPaths[n])))
      && (forall n :: n in animations0 && n !in animationPaths ==> animations[n] == animations0[n])
      && boneTable.entries == ClipsTable(table, read, animationPaths, SortedKeys(animationPaths.Keys))
    }
  }
}
