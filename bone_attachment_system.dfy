/** BoneAttachmentSystem: every frame, each entity with a bone attachment
    whose parent has an enabled animator that knows the bone is placed at
    that bone, shifted by the offsets for the parent's current clip. */
module AttachmentSys {
  import opened LinAlg
  import opened Wrappers
  import opened AnimatorComp
  import opened Attachment
  import opened Ecs

  /** getBoneTransform: the bone's model-space matrix when the animator
      knows the bone.  How the animator finds it is not part of this
      model, so the lookup is a parameter. */
  type BoneLookup = (AnimatorComponent, string) -> Option<Mat4>

  /** glm::radians, applied component by component. */
  const RadiansPerDegree: real := 0.01745329251994329576923690768489

  function Radians(degrees: Vec3): Vec3 {
    Scale3(degrees, RadiansPerDegree)
  }

  /** The part of an attached entity the system writes: its transform
      and the attachment's captured base rotation. */
  datatype Follower = Follower(transform: Transform, baseRotation: Vec3, captured: bool)

  /** What an entity resolves to when it is not skipped: the bone's
      matrix, the effective (position, rotation-in-degrees) offsets and the
      scale multiplier. */
  datatype Resolved = Resolved(bone: Mat4, offsets: (Vec3, Vec3), scale: Vec3)

  /** One placement: nothing when the entity was skipped; otherwise the
      base rotation is captured from the entity's rotation the first time,
      and the transform is the bone's origin plus the position offset, the
      base rotation plus the rotation offset in radians, and the scale
      multiplier. */
  function Follow(f: Follower, r: Option<Resolved>): (g: Follower)
    ensures r.None? ==> g == f
    ensures r.Some? ==>
      && g.captured
      && g.baseRotation == (if f.captured then f.baseRotation else f.transform.rotation)
      && g.transform.position == Add3(TranslationOf(r.value.bone), r.value.offsets.0)
      && g.transform.rotation == Add3(g.baseRotation, Radians(r.value.offsets.1))
      && g.transform.scale == r.value.scale
  {
    match r
    case None => f
    case Some(Resolved(bone, (pos, rot), scale)) =>
      var base := if f.captured then f.baseRotation else f.transform.rotation;
      Follower(Transform(Add3(TranslationOf(bone), pos), Add3(base, Radians(rot)), scale), base, true)
  }

  /** Following the same bone again changes nothing: the base rotation is
      captured once, and the rest does not depend on the old transform. */
  lemma FollowIdempotent(f: Follower, r: Option<Resolved>)
    ensures Follow(Follow(f, r), r) == Follow(f, r)
  {
  }

  /** Once captured, the base rotation never changes again. */
  lemma FollowCapturesOnce(f: Follower, r: Option<Resolved>)
    requires f.captured
    ensures Follow(f, r).captured && Follow(f, r).baseRotation == f.baseRotation
  {
  }

  /** After the capture, where the entity ends up does not depend on
      where it was. */
  lemma FollowIgnoresTransform(f: Follower, t: Transform, r: Resolved)
    requires f.captured
    ensures Follow(f, Some(r)) == Follow(f.(transform := t), Some(r))
  {
  }

  /** With zero offsets the entity sits at the bone's origin with its base
      rotation; for a pure translation that is the translation itself. */
  lemma FollowWithoutOffsets(f: Follower, v: Vec3, scale: Vec3)
    ensures Follow(f, Some(Resolved(Translate(v), (Zero3, Zero3), scale))).transform ==
      Transform(v, if f.captured then f.baseRotation else f.transform.rotation, scale)
  {
    TranslationOfTranslate(v);
    assert Add3(v, Zero3) == v;
  }

  /** The entity's follower state. */
  function Snap(e: Entity): Follower
    requires e.attachment != null
    reads e, e.attachment
  {
    Follower(e.localTransform, e.attachment.baseRotation, e.attachment.baseRotationInitialized)
  }

  /** The objects of the parent that the system reads. */
  function ParentAnimator(e: Entity): set<object> {
    if e.parent != null && e.parent.animator != null then {e.parent.animator} else {}
  }

  /** The entity's resolution: `None` when it has no attachment or an empty
      bone name, no parent, no enabled animator on the parent, or the bone
      is not found. */
  function Resolve(e: Entity, lookup: BoneLookup): (r: Option<Resolved>)
    reads e.attachment, ParentAnimator(e)
    ensures r.Some? <==>
      && e.attachment != null && e.attachment.boneName != ""
      && e.parent != null && e.parent.animator != null && e.parent.animator.enabled
      && lookup(e.parent.animator, e.attachment.boneName).Some?
    ensures r.Some? ==>
      && r.value.bone == lookup(e.parent.animator, e.attachment.boneName).value
      && r.value.offsets == e.attachment.OffsetsForAnimation(e.parent.animator.currentAnimationName)
      && r.value.scale == e.attachment.scaleMultiplier
  {
    if e.attachment == null || e.attachment.boneName == "" then None
    else if e.parent == null || e.parent.animator == null || !e.parent.animator.enabled then None
    else
      match lookup(e.parent.animator, e.attachment.boneName)
      case None => None
      case Some(bone) =>
        Some(Resolved(bone, e.attachment.OffsetsForAnimation(e.parent.animator.currentAnimationName),
                      e.attachment.scaleMultiplier))
  }

  /** The pass's effect on one entity: its follower state moves by
      `Follow`, and nothing else of the entity or its attachment changes. */
  twostate predicate Followed(e: Entity, lookup: BoneLookup)
    reads e, e.attachment, ParentAnimator(e)
  {
    if e.attachment == null then unchanged(e)
    else
      && Snap(e) == Follow(old(Snap(e)), old(Resolve(e, lookup)))
      && e.attachment.boneName == old(e.attachment.boneName)
      && e.attachment.positionOffset == old(e.attachment.positionOffset)
      && e.attachment.rotationOffset == old(e.attachment.rotationOffset)
      && e.attachment.scaleMultiplier == old(e.attachment.scaleMultiplier)
      && e.attachment.animationOffsets == old(e.attachment.animationOffsets)
  }

  /** The objects the pass may change. */
  function Written(world: seq<Entity>): set<object> {
    (set i | 0 <= i < |world| :: world[i]) +
    (set i | 0 <= i < |world| && world[i].attachment != null :: world[i].attachment)
  }

  class BoneAttachmentSystem {
    constructor ()
    {
    }

    /** The loop body for one entity. */
    static method UpdateEntity(e: Entity, lookup: BoneLookup)
      modifies e, e.attachment
      ensures Followed(e, lookup)
    {
      var attachment := e.attachment;
      if attachment == null || attachment.boneName == "" {
        return;
      }
      var parent := e.parent;
      if parent == null {
        return;
      }
      var animator := parent.animator;
      if animator == null || !animator.enabled {
        return;
      }
      var found := lookup(animator, attachment.boneName);
      if found.None? {
        return;
      }
      var boneTransform := found.value;
      if !attachment.baseRotationInitialized {
        attachment.baseRotation := e.localTransform.rotation;
        attachment.baseRotationInitialized := true;
      }
      var bonePosition := TranslationOf(boneTransform);
      var (posOffset, rotOffset) := attachment.OffsetsForAnimation(animator.currentAnimationName);
      var finalPosition := Add3(bonePosition, posOffset);
      var finalRotation := Add3(attachment.baseRotation, Radians(rotOffset));
      e.localTransform := e.localTransform.(position := finalPosition);
      e.localTransform := e.localTransform.(rotation := finalRotation);
      e.localTransform := e.localTransform.(scale := attachment.scaleMultiplier);
    }

    /** update: every entity in turn; `deltaTime` is not used. */
    method Update(world: seq<Entity>, deltaTime: real, lookup: BoneLookup)
      requires Owned(world)
      modifies Written(world)
      ensures forall i :: 0 <= i < |world| ==> Followed(world[i], lookup)
    {
      for k := 0 to |world|
        invariant forall i :: 0 <= i < k ==> Followed(world[i], lookup)
        invariant forall i :: k <= i < |world| ==>
          unchanged(world[i]) && (world[i].attachment != null ==> unchanged(world[i].attachment))
      {
        UpdateEntity(world[k], lookup);
      }
    }
  }
}
