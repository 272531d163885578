/** AnimationSystem: on the first frame after construction or reset it
    initialises the enabled animators and hands their skeletal meshes to
    the mesh renderers; every frame it advances the enabled animators that
    have a clip. */
module AnimationSys {
  import opened LinAlg
  import opened Wrappers
  import Importer
  import opened Clip
  import opened Playback
  import opened MeshUtils
  import opened AnimatorComp
  import opened Ecs

  /** What `read` must give for the clips each animator will load. */
  ghost predicate ClipsKeyed(world: seq<Entity>, read: Importer.Reader)
    reads set i | 0 <= i < |world| && world[i].animator != null :: world[i].animator
  {
    forall i, n :: 0 <= i < |world| && world[i].animator != null && n in world[i].animator.animationPaths ==>
      ClipKeyed(read(world[i].animator.animationPaths[n]))
  }

  /** The objects the init pass may change. */
  ghost function InitFrame(world: seq<Entity>): set<object>
    reads set i | 0 <= i < |world| && world[i].animator != null :: world[i].animator
  {
    Reprs(world) + (set i | 0 <= i < |world| && world[i].meshRenderer != null :: world[i].meshRenderer)
  }

  /** The objects of every animator. */
  ghost function Reprs(world: seq<Entity>): set<object>
    reads set i | 0 <= i < |world| && world[i].animator != null :: world[i].animator
  {
    set i, o | 0 <= i < |world| && world[i].animator != null && o in world[i].animator.Repr :: o
  }

  /** The init pass's effect on one entity: an enabled, uninitialised
      animator ends initialised and, when it holds a skeletal mesh, the
      entity's renderer shows that mesh; any other animator and renderer
      stay as they were. */
  twostate predicate InitDone(e: Entity)
    reads e, e.animator, e.meshRenderer
  {
    && (e.animator != null && old(e.animator.enabled && !e.animator.initialized) ==> e.animator.initialized)
    && (e.animator != null && !old(e.animator.enabled && !e.animator.initialized) ==> unchanged(e.animator))
    && (e.meshRenderer != null ==>
          && e.meshRenderer.enabled == old(e.meshRenderer.enabled)
          && if e.animator != null && old(e.animator.enabled && !e.animator.initialized) && e.animator.skeletalMesh.Some?
             then e.meshRenderer.mesh == e.animator.skeletalMesh
             else e.meshRenderer.mesh == old(e.meshRenderer.mesh))
  }

  /** The part of an animator one update step reads and writes: its
      clock, its play flag, the stored step and the final bone matrices. */
  datatype Clock = Clock(clip: Animation?, time: real, playing: bool, deltaTime: real, matrices: seq<Mat4>)

  /** The objects an entity's clock lives in. */
  function ClockFrame(e: Entity): set<object> {
    if e.animator != null then {e.animator.animator, e.animator.animator.finalBoneMatrices} else {}
  }

  ghost function ClockOf(e: Entity): Clock
    reads ClockFrame(e)
  {
    if e.animator == null then Clock(null, 0.0, false, 0.0, [])
    else
      var a := e.animator.animator;
      Clock(a.currentAnimation, a.currentTime, a.playing, a.deltaTime, a.finalBoneMatrices[..])
  }

  /** Every entity's clock, in world order. */
  ghost function Clocks(world: seq<Entity>): (r: seq<Clock>)
    reads set i, o | 0 <= i < |world| && o in ClockFrame(world[i]) :: o
    ensures |r| == |world| && forall i :: 0 <= i < |world| ==> r[i] == ClockOf(world[i])
  {
    seq(|world|, i requires 0 <= i < |world| reads if 0 <= i < |world| then ClockFrame(world[i]) else {} =>
      ClockOf(world[i]))
  }

  /** The entity's animator took one updateAnimation step of `dt` from the
      clock `before`: when it is enabled with a clip, the step is stored,
      the play flag kept and, when playing, the clock advanced and the clip
      re-posed over the earlier matrices; otherwise the clock is `before`. */
  ghost predicate Advanced(e: Entity, dt: real, before: Clock)
    reads e.animator, ClockFrame(e)
  {
    e.animator != null ==>
      var c := e.animator;
      if c.enabled && c.currentAnimation != null then
        && c.animator.deltaTime == dt && c.animator.playing == before.playing
        && c.currentAnimation.Posable() && |before.matrices| == MAX_BONES
        && (before.playing ==>
              && c.animator.currentTime == NextTime(before.time, Ticks(c.currentAnimation, dt), c.currentAnimation.duration)
              && c.animator.finalBoneMatrices[..] == Pose(c.currentAnimation, c.animator.currentTime, c.animator.ops, before.matrices))
        && (!before.playing ==>
              c.animator.currentTime == before.time && c.animator.finalBoneMatrices[..] == before.matrices)
      else ClockOf(e) == before
  }

  /** The update pass's effect on one entity: the animator component keeps
      its fields, and its animator takes one step from its old clock. */
  twostate predicate UpdateDone(e: Entity, dt: real)
    reads e.animator, ClockFrame(e)
  {
    e.animator != null ==> unchanged(e.animator) && Advanced(e, dt, old(ClockOf(e)))
  }

  class AnimationSystem {
    var initialized: bool

    constructor ()
      ensures !initialized
    {
      initialized := false;
    }

    /** reset: the next update runs the init pass again. */
    method Reset()
      modifies this
      ensures !initialized
    {
      initialized := false;
    }

    /** The init pass for one entity. */
    static method InitEntity(e: Entity, read: Importer.Reader)
      requires e.animator != null ==> e.animator.Valid()
      requires e.animator != null ==> forall n :: n in e.animator.animationPaths ==>
        ClipKeyed(read(e.animator.animationPaths[n]))
      requires e.animator != null && e.meshRenderer != null ==> e.meshRenderer !in e.animator.Repr
      modifies if e.animator != null then e.animator.Repr else {}, e.meshRenderer
      ensures InitDone(e)
      ensures e.animator != null ==> e.animator.Valid() && fresh(e.animator.Repr - old(e.animator.Repr))
      ensures e.animator != null ==> e.animator.animationPaths == old(e.animator.animationPaths)
    {
      var animator := e.animator;
      if animator != null && animator.enabled && !animator.initialized {
        animator.Initialize(read);
        if animator.skeletalMesh.Some? {
          var meshRenderer := e.meshRenderer;
          if meshRenderer != null {
            meshRenderer.mesh := animator.skeletalMesh;
          }
        }
      }
    }

    /** One step of the init pass, with what it keeps for the rest of the
        world. */
    static method InitStep(world: seq<Entity>, k: nat, read: Importer.Reader)
      requires k < |world| && Owned(world) && AnimatorsValid(world) && ClipsKeyed(world, read)
      modifies if world[k].animator != null then world[k].animator.Repr else {}, world[k].meshRenderer
      ensures AnimatorsValid(world) && ClipsKeyed(world, read)
      ensures InitDone(world[k])
      ensures forall i :: 0 <= i < |world| && i != k && world[i].animator != null ==>
        unchanged(world[i].animator) && unchanged(world[i].animator.Repr)
      ensures forall i :: 0 <= i < |world| && i != k && world[i].meshRenderer != null ==>
        unchanged(world[i].meshRenderer)
      ensures forall i :: 0 <= i < |world| && world[i].animator != null ==>
        fresh(world[i].animator.Repr - old(world[i].animator.Repr))
    {
      InitEntity(world[k], read);
      forall i | 0 <= i < |world| && i != k && world[i].animator != null
        ensures unchanged(world[i].animator) && unchanged(world[i].animator.Repr)
      {
        assert world[i].animator in old(world[i].animator.Repr);
      }
    }

    /** The init pass over the whole world. */
    static method InitPass(world: seq<Entity>, read: Importer.Reader)
      requires Owned(world) && AnimatorsValid(world) && ClipsKeyed(world, read)
      modifies InitFrame(world)
      ensures AnimatorsValid(world) && fresh(Reprs(world) - old(Reprs(world)))
      ensures forall i :: 0 <= i < |world| ==> InitDone(world[i])
    {
      for k := 0 to |world|
        invariant AnimatorsValid(world) && ClipsKeyed(world, read)
        invariant forall i :: 0 <= i < k ==> InitDone(world[i])
        invariant forall i :: k <= i < |world| && world[i].animator != null ==> unchanged(world[i].animator)
        invariant forall i :: k <= i < |world| && world[i].meshRenderer != null ==> unchanged(world[i].meshRenderer)
        invariant forall i :: 0 <= i < |world| && world[i].animator != null ==>
          fresh(world[i].animator.Repr - old(world[i].animator.Repr))
      {
        assert world[k].animator != null ==> world[k].animator.Repr <= old(Reprs(world));
        label L:
        InitStep(world, k, read);
        forall i | 0 <= i < k ensures InitDone(world[i]) {
          assert world[i].animator != null ==> unchanged@L(world[i].animator);
          assert world[i].meshRenderer != null ==> unchanged@L(world[i].meshRenderer);
        }
      }
    }

    /** The update pass for one entity. */
    static method UpdateEntity(e: Entity, dt: real)
      requires e.animator != null ==> e.animator.Valid()
      modifies if e.animator != null then e.animator.Repr else {}
      ensures UpdateDone(e, dt)
      ensures e.animator != null ==> e.animator.Valid()
    {
      var animator := e.animator;
      if animator != null && animator.enabled && animator.currentAnimation != null {
        assert {animator.animator, animator.animator.finalBoneMatrices} + BonesOf(animator.currentAnimation) <= animator.Repr;
        animator.Update(dt);
      }
    }

    /** One step of the update pass, with what it keeps for the rest of
        the world. */
    static method UpdateStep(world: seq<Entity>, k: nat, dt: real)
      requires k < |world| && Owned(world) && AnimatorsValid(world)
      modifies if world[k].animator != null then world[k].animator.Repr else {}
      ensures AnimatorsValid(world)
      ensures UpdateDone(world[k], dt)
      ensures forall i :: 0 <= i < |world| && i != k && world[i].animator != null ==>
        unchanged(world[i].animator) && unchanged(world[i].animator.Repr)
    {
      UpdateEntity(world[k], dt);
      forall i | 0 <= i < |world| && i != k && world[i].animator != null
        ensures unchanged(world[i].animator) && unchanged(world[i].animator.Repr)
      {
        assert world[i].animator in old(world[i].animator.Repr);
      }
    }

    /** The update pass over the whole world. */
    static method UpdatePass(world: seq<Entity>, dt: real)
      requires Owned(world) && AnimatorsValid(world)
      modifies Reprs(world)
      ensures AnimatorsValid(world)
      ensures forall i :: 0 <= i < |world| ==> UpdateDone(world[i], dt)
    {
      for k := 0 to |world|
        invariant AnimatorsValid(world)
        invariant forall i :: 0 <= i < k ==> UpdateDone(world[i], dt)
        invariant forall i :: k <= i < |world| && world[i].animator != null ==>
          unchanged(world[i].animator) && unchanged(world[i].animator.Repr)
      {
        assert world[k].animator != null ==> world[k].animator.Repr <= old(Reprs(world));
        assert world[k].animator != null ==>
          world[k].animator.animator in world[k].animator.Repr &&
          world[k].animator.animator.finalBoneMatrices in world[k].animator.Repr;
        assert world[k].animator != null ==>
          world[k].animator.animator.finalBoneMatrices[..] == old(world[k].animator.animator.finalBoneMatrices[..]);
        label L:
        UpdateStep(world, k, dt);
        forall i | 0 <= i < k ensures UpdateDone(world[i], dt) {
          assert world[i].animator != null ==> world[i].animator in old@L(world[i].animator.Repr);
        }
      }
    }

    /** The first frame: the init pass, then the update pass, which steps
        each animator from its clock after the init pass. */
    static method FirstFrame(world: seq<Entity>, deltaTime: real, read: Importer.Reader) returns (ghost clocks: seq<Clock>)
      requires Owned(world) && AnimatorsValid(world) && ClipsKeyed(world, read)
      modifies InitFrame(world)
      ensures AnimatorsValid(world) && fresh(Reprs(world) - old(Reprs(world))) && |clocks| == |world|
      ensures forall i :: 0 <= i < |world| ==> InitDone(world[i])
      ensures forall i :: 0 <= i < |world| ==> Advanced(world[i], deltaTime, clocks[i])
    {
      InitPass(world, read);
      clocks := Clocks(world);
      label Mid:
      UpdatePass(world, deltaTime);
      forall i | 0 <= i < |world| ensures InitDone(world[i]) && Advanced(world[i], deltaTime, clocks[i]) {
        assert world[i].animator != null ==> unchanged@Mid(world[i].animator);
        if world[i].meshRenderer != null {
          assert world[i].meshRenderer !in old@Mid(Reprs(world));
          assert unchanged@Mid(world[i].meshRenderer);
        }
      }
    }

    /** A frame after the first: the update pass alone, each animator
        stepping from its clock before the call. */
    static method LaterFrame(world: seq<Entity>, deltaTime: real) returns (ghost clocks: seq<Clock>)
      requires Owned(world) && AnimatorsValid(world)
      modifies Reprs(world)
      ensures AnimatorsValid(world) && |clocks| == |world|
      ensures forall i :: 0 <= i < |world| ==> clocks[i] == old(ClockOf(world[i]))
      ensures forall i :: 0 <= i < |world| ==> UpdateDone(world[i], deltaTime)
      ensures forall i :: 0 <= i < |world| ==> Advanced(world[i], deltaTime, clocks[i])
    {
      clocks := Clocks(world);
      UpdatePass(world, deltaTime);
      forall i | 0 <= i < |world| ensures Advanced(world[i], deltaTime, clocks[i]) {
        assert UpdateDone(world[i], deltaTime);
      }
    }

    /** update: the init pass on the first frame only (the flag is set
        even when nothing was initialised; it is written before the passes,
        neither of which reads it), then the update pass.  The
        ghost `clocks` are the animators' clocks between the two passes:
        each animator steps from its clock there, which after the first
        frame is its clock before the call. */
    method Update(world: seq<Entity>, deltaTime: real, read: Importer.Reader) returns (ghost clocks: seq<Clock>)
      requires Owned(world) && AnimatorsValid(world) && ClipsKeyed(world, read) && this !in Reprs(world)
      modifies this, InitFrame(world)
      ensures initialized && AnimatorsValid(world) && |clocks| == |world|
      ensures !old(initialized) ==> forall i :: 0 <= i < |world| ==> InitDone(world[i])
      ensures old(initialized) ==> forall i :: 0 <= i < |world| ==> clocks[i] == old(ClockOf(world[i]))
      ensures forall i :: 0 <= i < |world| ==> Advanced(world[i], deltaTime, clocks[i])
      ensures old(initialized) ==> forall i :: 0 <= i < |world| ==> UpdateDone(world[i], deltaTime)
    {
      if !initialized {
        initialized := true;
        label Set:
        clocks := FirstFrame(world, deltaTime, read);
        forall i | 0 <= i < |world| ensures InitDone(world[i]) {
          assert InitDone@Set(world[i]);
        }
      } else {
        clocks := LaterFrame(world, deltaTime);
      }
    }
  }
}
