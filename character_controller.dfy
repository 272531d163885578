/** The clip choice of CharacterControllerSystem: after moving the
    character, it plays the walking or the idle clip, bare-handed in slot 0
    and armed in any other slot.  The movement itself is not part of this
    model. */
module CharacterSys {
  import opened Clip
  import opened Playback
  import opened AnimatorComp
  import opened Ecs

  /** The movement keys that count as walking; Q and E move the character
      vertically and do not. */
  const WalkKeys: set<char> := {'W', 'S', 'A', 'D'}

  /** isWalking: one of W, S, A, D is held. */
  function IsWalking(held: set<char>): (r: bool)
    ensures r <==> exists key :: key in held && key in WalkKeys
  {
    assert 'W' in WalkKeys && 'S' in WalkKeys && 'A' in WalkKeys && 'D' in WalkKeys;
    'W' in held || 'S' in held || 'A' in held || 'D' in held
  }

  /** The clip the character should show. */
  function TargetClip(walking: bool, activeSlot: int): (name: string)
    ensures name in {"walk", "GunWalk", "idle", "GunIdle"}
    ensures walking <==> name in {"walk", "GunWalk"}
    ensures activeSlot == 0 <==> name in {"walk", "idle"}
  {
    if walking then (if activeSlot == 0 then "walk" else "GunWalk")
    else (if activeSlot == 0 then "idle" else "GunIdle")
  }

  class CharacterControllerSystem {
    var wasWalking: bool

    constructor ()
      ensures !wasWalking
    {
      wasWalking := false;
    }

    /** enter: the walking state starts false. */
    method Enter()
      modifies this
      ensures !wasWalking
    {
      wasWalking := false;
    }

    /** The end of update for the character entity: with an enabled
        animator, the target clip is set and played only when the animator
        has it and is not already showing it; the inventory must then be
        present, since it is read unchecked.  The walking state is stored
        either way. */
    method AnimateCharacter(animator: AnimatorComponent?, inventory: Inventory?, held: set<char>)
      requires animator != null ==> animator.Valid()
      requires animator != null && animator.enabled ==> inventory != null
      requires animator != null ==> this !in animator.Repr
      modifies this, if animator != null then animator.Repr else {}
      ensures wasWalking == IsWalking(held)
      ensures animator != null ==>
        && animator.Valid() && animator.Repr == old(animator.Repr)
        && animator.enabled == old(animator.enabled) && animator.animations == old(animator.animations)
      ensures animator != null && !animator.enabled ==>
        unchanged(animator) && unchanged(animator.animator) && unchanged(animator.animator.finalBoneMatrices)
      ensures animator != null && animator.enabled && inventory != null ==>
        var name := TargetClip(IsWalking(held), old(inventory.activeSlot));
        if name in animator.animations && name != old(animator.currentAnimationName) then
          && animator.currentAnimationName == name && animator.currentAnimation == animator.animations[name]
          && animator.animator.currentTime == 0.0 && animator.animator.playing
          && animator.animator.finalBoneMatrices[..] ==
             Pose(animator.animations[name], 0.0, animator.animator.ops, old(animator.animator.finalBoneMatrices[..]))
        else
          && animator.currentAnimationName == old(animator.currentAnimationName)
          && animator.currentAnimation == old(animator.currentAnimation)
          && animator.animator.currentTime == old(animator.animator.currentTime)
          && animator.animator.playing == old(animator.animator.playing)
          && animator.animator.finalBoneMatrices[..] == old(animator.animator.finalBoneMatrices[..])
    {
      var isWalking := 'W' in held || 'S' in held || 'A' in held || 'D' in held;
      if animator != null && animator.enabled {
        var name := TargetClip(isWalking, inventory.activeSlot);
        if animator.HasAnimation(name) && animator.currentAnimationName != name {
          assert {animator, animator.animator, animator.animator.finalBoneMatrices} +
            BonesOf(animator.animations[name]) <= animator.Repr;
          animator.SetAnimation(name);
          animator.Play();
        }
      }
      wasWalking := isWalking;
    }
  }
}
