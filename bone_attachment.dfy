/** BoneAttachmentComponent: the bone an entity follows, its default
    offsets, a scale, the base rotation captured on the first attachment
    and the per-animation offset overrides. */
module Attachment {
  import opened LinAlg
  import opened Wrappers

  /** AnimationOffset: an additive adjustment for one clip (rotation in
      degrees); a part the scene file leaves out is zero. */
  datatype AnimationOffset = AnimationOffset(position: Vec3, rotation: Vec3)

  /** One entry of "animationOffsets", already typed. */
  datatype OffsetConfig = OffsetConfig(position: Option<Vec3>, rotation: Option<Vec3>)

  /** The component's entry in the scene file, already typed; a value that
      is not an object is `NotAnObject`, and `animationOffsets` is `None`
      when the key is absent or does not hold an object. */
  datatype AttachmentConfig =
    | NotAnObject
    | Config(bone: Option<string>, positionOffset: Option<Vec3>, rotationOffset: Option<Vec3>,
             scale: Option<Vec3>, animationOffsets: Option<seq<(string, OffsetConfig)>>)

  /** The offset an entry describes: each missing part zero. */
  function ParseOffset(c: OffsetConfig): (r: AnimationOffset)
    ensures r.position == c.position.GetOr(Zero3) && r.rotation == c.rotation.GetOr(Zero3)
    ensures c.position.None? ==> r.position == Zero3
    ensures c.rotation.None? ==> r.rotation == Zero3
  {
    AnimationOffset(c.position.GetOr(Zero3), c.rotation.GetOr(Zero3))
  }

  /** The override table after storing each entry in turn. */
  function WithOffsets(m: map<string, AnimationOffset>, items: seq<(string, OffsetConfig)>): map<string, AnimationOffset>
    decreases |items|
  {
    if items == [] then m
    else WithOffsets(m, items[..|items| - 1])[items[|items| - 1].0 := ParseOffset(items[|items| - 1].1)]
  }

  /** Every name of the "animationOffsets" object (its names are distinct)
      gets its parsed offset; every other override stays. */
  lemma {:induction false} WithOffsetsSpec(m: map<string, AnimationOffset>, items: seq<(string, OffsetConfig)>)
    requires forall i, j :: 0 <= i < j < |items| ==> items[i].0 != items[j].0
    ensures forall i :: 0 <= i < |items| ==>
      items[i].0 in WithOffsets(m, items) && WithOffsets(m, items)[items[i].0] == ParseOffset(items[i].1)
    ensures forall k :: k in m && (forall i :: 0 <= i < |items| ==> items[i].0 != k) ==>
      k in WithOffsets(m, items) && WithOffsets(m, items)[k] == m[k]
    ensures forall k :: k in WithOffsets(m, items) ==> k in m || exists i :: 0 <= i < |items| && items[i].0 == k
    decreases |items|
  {
    if items != [] {
      var init := items[..|items| - 1];
      WithOffsetsSpec(m, init);
      forall i | 0 <= i < |init|
        ensures init[i] == items[i]
      {
      }
      forall k | k in WithOffsets(m, items)
        ensures k in m || exists i :: 0 <= i < |items| && items[i].0 == k
      {
        if k != items[|items| - 1].0 && k !in m {
          var i :| 0 <= i < |init| && init[i].0 == k;
          assert items[i].0 == k;
        }
      }
    }
  }

  class BoneAttachment {
    var boneName: string
    var positionOffset: Vec3
    var rotationOffset: Vec3
    var scaleMultiplier: Vec3
    /** In radians, captured from the entity's rotation on first use. */
    var baseRotation: Vec3
    var baseRotationInitialized: bool
    var animationOffsets: map<string, AnimationOffset>

    /** The defaults: zero offsets, unit scale, zero base rotation not yet
        captured, no overrides and no bone. */
    constructor ()
      ensures boneName == "" && positionOffset == Zero3 && rotationOffset == Zero3
      ensures scaleMultiplier == One3 && baseRotation == Zero3 && !baseRotationInitialized
      ensures animationOffsets == map[]
    {
      boneName := "";
      positionOffset := Zero3;
      rotationOffset := Zero3;
      scaleMultiplier := One3;
      baseRotation := Zero3;
      baseRotationInitialized := false;
      animationOffsets := map[];
    }

    /** getOffsetsForAnimation: with no override for the clip, the default
        offsets; otherwise the defaults plus the override, component by
        component, so a zero override is the same as none.  It reads the
        component and changes nothing. */
    function OffsetsForAnimation(animName: string): (r: (Vec3, Vec3))
      reads this
      ensures animName !in animationOffsets ==> r == (positionOffset, rotationOffset)
      ensures animName in animationOffsets ==>
        && r.0 == Add3(positionOffset, animationOffsets[animName].position)
        && r.1 == Add3(rotationOffset, animationOffsets[animName].rotation)
      ensures animName in animationOffsets && animationOffsets[animName] == AnimationOffset(Zero3, Zero3) ==>
        r == (positionOffset, rotationOffset)
    {
      var pos := positionOffset;
      var rot := rotationOffset;
      if animName in animationOffsets then
        (Add3(pos, animationOffsets[animName].position), Add3(rot, animationOffsets[animName].rotation))
      else (pos, rot)
    }

    /** deserialize: a non-object changes nothing; each field changes only
        when its key is present; overrides are stored entry by entry. */
    method Deserialize(config: AttachmentConfig)
      modifies this
      ensures config.NotAnObject? ==> unchanged(this)
      ensures config.Config? ==>
        && boneName == config.bone.GetOr(old(boneName))
        && positionOffset == config.positionOffset.GetOr(old(positionOffset))
        && rotationOffset == config.rotationOffset.GetOr(old(rotationOffset))
        && scaleMultiplier == config.scale.GetOr(old(scaleMultiplier))
        && animationOffsets == WithOffsets(old(animationOffsets), config.animationOffsets.GetOr([]))
      ensures baseRotation == old(baseRotation) && baseRotationInitialized == old(baseRotationInitialized)
    {
      if config.NotAnObject? {
        return;
      }
      if config.bone.Some? {
        boneName := config.bone.value;
      }
      if config.positionOffset.Some? {
        positionOffset := config.positionOffset.value;
      }
      if config.rotationOffset.Some? {
        rotationOffset := config.rotationOffset.value;
      }
      if config.scale.Some? {
        scaleMultiplier := config.scale.value;
      }
      var offsets := animationOffsets;
      if config.animationOffsets.Some? {
        var items := config.animationOffsets.value;
        for i := 0 to |items|
          invariant offsets == WithOffsets(old(animationOffsets), items[..i])
        {
          assert items[..i + 1][..i] == items[..i];
          var offset := AnimationOffset(Zero3, Zero3);
          if items[i].1.position.Some? {
            offset := offset.(position := items[i].1.position.value);
          }
          if items[i].1.rotation.Some? {
            offset := offset.(rotation := items[i].1.rotation.value);
          }
          offsets := offsets[items[i].0 := offset];
        }
        assert items[..|items|] == items;
      }
      animationOffsets := offsets;
    }
  }
}
