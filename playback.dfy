/** Playback and pose solving (source/common/animation/animator.hpp): a
    clock that advances by ticks-per-second times the frame time and wraps at
    the clip's duration, and a pre-order walk of the clip's hierarchy that
    writes each bone's skinning matrix into a fixed array of 100 matrices. */
module Playback {
  import opened LinAlg
  import opened Wrappers
  import opened Keyframes
  import opened Clip

  /** The length of the final bone matrix array. */
  const MAX_BONES := 100

  // ---------------------------------------------------------------------
  // The clock

  /** C's conversion of a real quotient to an integer: towards zero. */
  function Trunc(q: real): (n: int)
    ensures 0.0 <= q ==> n as real <= q < n as real + 1.0
    ensures q < 0.0 ==> n as real - 1.0 < q <= n as real
  {
    if q >= 0.0 then q.Floor else -((-q).Floor)
  }

  /** C's fmod over the reals: x - n * d with n = x / d truncated, so the
      result has the sign of x. */
  function Fmod(x: real, d: real): real
    requires d != 0.0
  {
    x - (Trunc(x / d) as real) * d
  }

  /** fmod exactly as called: a zero divisor yields NaN, written `None`. */
  function FmodAsWritten(x: real, d: real): (r: Option<real>)
    ensures r.None? <==> d == 0.0
  {
    if d == 0.0 then None else Some(Fmod(x, d))
  }

  /** The time updateAnimation computes, as written. */
  function NextTimeAsWritten(time: real, increment: real, duration: real): Option<real> {
    FmodAsWritten(time + increment, duration)
  }

  /** A zero-length clip turns the clock into NaN, and NaN stays NaN on
      every later frame. */
  lemma ZeroDurationIsNaN(time: real, increment: real)
    ensures NextTimeAsWritten(time, increment, 0.0).None?
  {
  }

  /** The corrected clock: a clip of zero duration holds its time instead
      of turning it into NaN; otherwise the time is as written. */
  function NextTime(time: real, increment: real, duration: real): (r: real)
    ensures duration == 0.0 ==> r == time
    ensures duration != 0.0 ==> NextTimeAsWritten(time, increment, duration) == Some(r)
  {
    if duration == 0.0 then time else Fmod(time + increment, duration)
  }

  lemma NonNegativeProduct(a: real, b: real)
    requires 0.0 <= a && 0.0 <= b
    ensures 0.0 <= a * b
  {
  }

  /** For a non-negative time and a positive duration, fmod lands in
      [0, duration). */
  lemma FmodRange(x: real, d: real)
    requires 0.0 <= x && 0.0 < d
    ensures 0.0 <= Fmod(x, d) < d
  {
    var q := x / d;
    var n := Trunc(q) as real;
    assert q * d == x;
    var f := (q - n) * d;
    assert Fmod(x, d) == f;
    NonNegativeProduct(q - n, d);
    var r := 1.0 - (q - n);
    PositiveProduct(r, d);
    assert r * d == d - f;
  }

  /** A time already inside [0, duration) is left where it is. */
  lemma FmodInside(x: real, d: real)
    requires 0.0 <= x < d
    ensures Fmod(x, d) == x
  {
    var q := x / d;
    assert q * d == x;
    if 1.0 <= q {
      assert (q - 1.0) * d == x - d;
      NonNegativeProduct(q - 1.0, d);
      assert false;
    }
    assert Trunc(q) == 0;
  }

  /** Adding one whole duration does not change the wrapped time. */
  lemma FmodPeriodic(x: real, d: real)
    requires 0.0 <= x && 0.0 < d
    ensures Fmod(x + d, d) == Fmod(x, d)
  {
    var q := x / d;
    assert q * d == x;
    QuotientOfProduct(x + d, d, q + 1.0);
    assert (q + 1.0).Floor == q.Floor + 1;
    assert Trunc(q + 1.0) == Trunc(q) + 1;
  }

  lemma QuotientOfProduct(a: real, d: real, c: real)
    requires d != 0.0 && c * d == a
    ensures a / d == c
  {
    assert (a / d) * d == a;
    assert (a / d - c) * d == 0.0;
  }

  /** With a non-negative time, a non-negative step and a positive duration,
      the next time is in [0, duration). */
  lemma NextTimeRange(time: real, increment: real, duration: real)
    requires 0.0 <= time && 0.0 <= increment && 0.0 < duration
    ensures 0.0 <= NextTime(time, increment, duration) < duration
  {
    FmodRange(time + increment, duration);
  }

  // ---------------------------------------------------------------------
  // The pose

  /** One store into the final bone matrix array. */
  datatype Write = Write(index: int, matrix: Mat4)

  predicate InRange(w: seq<Write>, n: int) {
    forall i :: 0 <= i < |w| ==> 0 <= w[i].index < n
  }

  /** The array after the stores `w`, performed in order. */
  function ApplyWrites(a: seq<Mat4>, w: seq<Write>): (r: seq<Mat4>)
    requires InRange(w, |a|)
    ensures |r| == |a|
    decreases |w|
  {
    if w == [] then a else ApplyWrites(a[w[0].index := w[0].matrix], w[1..])
  }

  /** Entry k after the stores `w`, read off from the last store to k:
      a reference definition of ApplyWrites. */
  function LastStored(a: seq<Mat4>, w: seq<Write>, k: int): Mat4
    requires 0 <= k < |a|
    decreases |w|
  {
    if w == [] then a[k]
    else if w[|w| - 1].index == k then w[|w| - 1].matrix
    else LastStored(a, w[..|w| - 1], k)
  }

  predicate Untouched(w: seq<Write>, k: int) {
    forall i :: 0 <= i < |w| ==> w[i].index != k
  }

  lemma {:induction false} ApplyWritesAppend(a: seq<Mat4>, w1: seq<Write>, w2: seq<Write>)
    requires InRange(w1, |a|) && InRange(w2, |a|)
    ensures InRange(w1 + w2, |a|)
    ensures ApplyWrites(a, w1 + w2) == ApplyWrites(ApplyWrites(a, w1), w2)
    decreases |w1|
  {
    if w1 == [] {
      assert w1 + w2 == w2;
    } else {
      assert (w1 + w2)[0] == w1[0];
      assert (w1 + w2)[1..] == w1[1..] + w2;
      assert ApplyWrites(a, w1) == ApplyWrites(a[w1[0].index := w1[0].matrix], w1[1..]);
      ApplyWritesAppend(a[w1[0].index := w1[0].matrix], w1[1..], w2);
    }
  }

  /** Storing in order leaves in each entry the last value stored there. */
  lemma {:induction false} ApplyWritesIsLastStored(a: seq<Mat4>, w: seq<Write>, k: int)
    requires InRange(w, |a|) && 0 <= k < |a|
    ensures ApplyWrites(a, w)[k] == LastStored(a, w, k)
    decreases |w|
  {
    if w != [] {
      var init := w[..|w| - 1];
      var last := w[|w| - 1];
      assert w == init + [last];
      ApplyWritesAppend(a, init, [last]);
      ApplyWritesIsLastStored(a, init, k);
      assert ApplyWrites(ApplyWrites(a, init), [last]) == ApplyWrites(a, init)[last.index := last.matrix];
    }
  }

  /** An entry no store touches keeps its value; an entry some store
      touches no longer depends on what the array held. */
  lemma {:induction false} LastStoredBase(a: seq<Mat4>, b: seq<Mat4>, w: seq<Write>, k: int)
    requires 0 <= k < |a| && |a| == |b|
    ensures Untouched(w, k) ==> LastStored(a, w, k) == a[k]
    ensures !Untouched(w, k) ==> LastStored(a, w, k) == LastStored(b, w, k)
    decreases |w|
  {
    if w != [] {
      LastStoredBase(a, b, w[..|w| - 1], k);
      if w[|w| - 1].index != k && !Untouched(w, k) {
        var i :| 0 <= i < |w| && w[i].index == k;
        assert w[..|w| - 1][i].index == k;
      }
    }
  }

  /** Performing the same stores twice is performing them once. */
  lemma ApplyWritesIdempotent(a: seq<Mat4>, w: seq<Write>)
    requires InRange(w, |a|)
    ensures ApplyWrites(ApplyWrites(a, w), w) == ApplyWrites(a, w)
  {
    var once := ApplyWrites(a, w);
    forall k | 0 <= k < |a|
      ensures ApplyWrites(once, w)[k] == once[k]
    {
      ApplyWritesIsLastStored(once, w, k);
      ApplyWritesIsLastStored(a, w, k);
      LastStoredBase(once, a, w, k);
      LastStoredBase(a, once, w, k);
    }
  }

  /** The node's local transform at time t: its bone's interpolated
      transform when the clip has a track with the node's name, otherwise
      the node's bind transform. */
  function NodeTransform(anim: Animation, t: real, ops: Glm, node: NodeData): Mat4
    requires anim.Posable()
  {
    match FindBone(anim.bones, node.name)
    case Some(i) => anim.bones[i].LocalAt(t, ops)
    case None => node.transformation
  }

  /** The store a node makes: global * offset at its bone id, for a name in
      the bone table whose id is below MAX_BONES; no store otherwise. */
  function OwnWrite(anim: Animation, ops: Glm, node: NodeData, global: Mat4): (w: seq<Write>)
    requires anim.Posable()
    ensures InRange(w, MAX_BONES)
    ensures |w| <= 1
    ensures w != [] <==> node.name in anim.boneInfoMap && anim.boneInfoMap[node.name].id < MAX_BONES
  {
    if node.name in anim.boneInfoMap && anim.boneInfoMap[node.name].id < MAX_BONES then
      [Write(anim.boneInfoMap[node.name].id, ops.mul(global, anim.boneInfoMap[node.name].offset))]
    else []
  }

  /** The stores calculateBoneTransform makes for `node` under `parent`:
      the node's own store, then those of its children in order, each child
      under the node's global transform parent * local. */
  function NodeWrites(anim: Animation, t: real, ops: Glm, node: NodeData, parent: Mat4): (w: seq<Write>)
    requires anim.Posable()
    ensures InRange(w, MAX_BONES)
    decreases node, 1
  {
    var global := ops.mul(parent, NodeTransform(anim, t, ops, node));
    var own := OwnWrite(anim, ops, node, global);
    var rest := ChildWrites(anim, t, ops, node, global, 0);
    assert InRange(own + rest, MAX_BONES) by {
      assert forall i :: 0 <= i < |own| ==> (own + rest)[i] == own[i];
      assert forall i :: |own| <= i < |own + rest| ==> (own + rest)[i] == rest[i - |own|];
    }
    own + rest
  }

  /** The stores for children i, i+1, ... of `node`. */
  function ChildWrites(anim: Animation, t: real, ops: Glm, node: NodeData, global: Mat4, i: nat): (w: seq<Write>)
    requires anim.Posable() && i <= |node.children|
    ensures InRange(w, MAX_BONES)
    decreases node, 0, |node.children| - i
  {
    if i == |node.children| then []
    else
      var first := NodeWrites(anim, t, ops, node.children[i], global);
      var rest := ChildWrites(anim, t, ops, node, global, i + 1);
      assert InRange(first + rest, MAX_BONES) by {
        assert forall k :: 0 <= k < |first| ==> (first + rest)[k] == first[k];
        assert forall k :: |first| <= k < |first + rest| ==> (first + rest)[k] == rest[k - |first|];
      }
      first + rest
  }

  /** The matrix array after posing the clip at time t, from the root
      under the identity. */
  function Pose(anim: Animation, t: real, ops: Glm, a: seq<Mat4>): seq<Mat4>
    requires anim.Posable() && |a| == MAX_BONES
  {
    ApplyWrites(a, NodeWrites(anim, t, ops, anim.rootNode, Identity))
  }

  /** The ids the bone table hands out. */
  function BoneIds(m: map<string, BoneInfo>): set<int> {
    set n | n in m :: m[n].id
  }

  predicate StoresAt(w: seq<Write>, ids: set<int>) {
    forall i :: 0 <= i < |w| ==> w[i].index in ids
  }

  lemma StoresAtConcat(w1: seq<Write>, w2: seq<Write>, ids: set<int>)
    requires StoresAt(w1, ids) && StoresAt(w2, ids)
    ensures StoresAt(w1 + w2, ids)
  {
    forall i | 0 <= i < |w1 + w2|
      ensures (w1 + w2)[i].index in ids
    {
      if i < |w1| {
        assert (w1 + w2)[i] == w1[i];
      } else {
        assert (w1 + w2)[i] == w2[i - |w1|];
      }
    }
  }

  /** Every store of the walk is at the id of a name in the bone table. */
  lemma {:induction false} WritesAreBoneIds(anim: Animation, t: real, ops: Glm, node: NodeData, parent: Mat4)
    requires anim.Posable()
    ensures StoresAt(NodeWrites(anim, t, ops, node, parent), BoneIds(anim.boneInfoMap))
    decreases node, 1
  {
    var global := ops.mul(parent, NodeTransform(anim, t, ops, node));
    ChildWritesAreBoneIds(anim, t, ops, node, global, 0);
    var own := OwnWrite(anim, ops, node, global);
    if own != [] {
      assert own[0].index == anim.boneInfoMap[node.name].id;
    }
    StoresAtConcat(own, ChildWrites(anim, t, ops, node, global, 0), BoneIds(anim.boneInfoMap));
  }

  lemma {:induction false} ChildWritesAreBoneIds(anim: Animation, t: real, ops: Glm, node: NodeData, global: Mat4, i: nat)
    requires anim.Posable() && i <= |node.children|
    ensures StoresAt(ChildWrites(anim, t, ops, node, global, i), BoneIds(anim.boneInfoMap))
    decreases node, 0, |node.children| - i
  {
    if i < |node.children| {
      WritesAreBoneIds(anim, t, ops, node.children[i], global);
      ChildWritesAreBoneIds(anim, t, ops, node, global, i + 1);
      StoresAtConcat(NodeWrites(anim, t, ops, node.children[i], global),
                     ChildWrites(anim, t, ops, node, global, i + 1), BoneIds(anim.boneInfoMap));
    }
  }

  /** An array entry that is no bone's id keeps its value through a pose. */
  lemma PoseLeavesOtherEntries(anim: Animation, t: real, ops: Glm, a: seq<Mat4>, k: int)
    requires anim.Posable() && |a| == MAX_BONES && 0 <= k < MAX_BONES
    requires k !in BoneIds(anim.boneInfoMap)
    ensures Pose(anim, t, ops, a)[k] == a[k]
  {
    var w := NodeWrites(anim, t, ops, anim.rootNode, Identity);
    WritesAreBoneIds(anim, t, ops, anim.rootNode, Identity);
    ApplyWritesIsLastStored(a, w, k);
    LastStoredBase(a, a, w, k);
  }

  /** Posing twice at the same time gives the same matrices as posing once:
      nothing a pose reads is left over from the previous pose. */
  lemma PoseIdempotent(anim: Animation, t: real, ops: Glm, a: seq<Mat4>)
    requires anim.Posable() && |a| == MAX_BONES
    ensures Pose(anim, t, ops, Pose(anim, t, ops, a)) == Pose(anim, t, ops, a)
  {
    ApplyWritesIdempotent(a, NodeWrites(anim, t, ops, anim.rootNode, Identity));
  }

  /** The bones of a clip, the objects a pose updates. */
  function BonesOf(anim: Animation?): set<Bone> {
    if anim == null then {} else set i | 0 <= i < |anim.bones| :: anim.bones[i]
  }

  /** The local transforms the clip's bones hold. */
  ghost function Locals(anim: Animation): (r: seq<Mat4>)
    reads BonesOf(anim)
    ensures |r| == |anim.bones|
  {
    seq(|anim.bones|, i requires 0 <= i < |anim.bones| reads BonesOf(anim) => anim.bones[i].localTransform)
  }

  /** From `before` to `after`, each bone either kept its transform or now
      holds its interpolated transform at time t. */
  ghost predicate Settled(anim: Animation, before: seq<Mat4>, after: seq<Mat4>, t: real, ops: Glm)
    requires anim.Posable()
  {
    && |before| == |anim.bones| && |after| == |anim.bones|
    && forall k :: 0 <= k < |anim.bones| ==> after[k] == before[k] || after[k] == anim.bones[k].LocalAt(t, ops)
  }

  lemma SettledTransitive(anim: Animation, a: seq<Mat4>, b: seq<Mat4>, c: seq<Mat4>, t: real, ops: Glm)
    requires anim.Posable() && Settled(anim, a, b, t, ops) && Settled(anim, b, c, t, ops)
    ensures Settled(anim, a, c, t, ops)
  {
  }

  /** The clip ticks that pass in `dt` seconds. */
  function Ticks(anim: Animation, dt: real): real {
    anim.ticksPerSecond * dt
  }

  class Animator {
    const finalBoneMatrices: array<Mat4>
    var currentAnimation: Animation?
    var currentTime: real
    var deltaTime: real
    var playing: bool
    /** glm's numerics used by the bone updates and the pose. */
    const ops: Glm

    predicate Valid()
      reads this
    {
      finalBoneMatrices.Length == MAX_BONES && (currentAnimation != null ==> currentAnimation.Posable())
    }

    /** 100 identity matrices, time 0, not playing; no pose is computed. */
    constructor (animation: Animation?, ops: Glm)
      requires animation != null ==> animation.Posable()
      ensures Valid() && fresh(finalBoneMatrices)
      ensures currentAnimation == animation && this.ops == ops
      ensures currentTime == 0.0 && deltaTime == 0.0 && !playing
      ensures forall i :: 0 <= i < MAX_BONES ==> finalBoneMatrices[i] == Identity
    {
      finalBoneMatrices := new Mat4[MAX_BONES](_ => Identity);
      currentAnimation := animation;
      currentTime := 0.0;
      deltaTime := 0.0;
      playing := false;
      this.ops := ops;
    }

    /** The local transform of `node` at the current time, updating its
        bone when the clip has one (the first half of calculateBoneTransform). */
    method NodeLocal(node: NodeData) returns (nodeTransform: Mat4)
      requires Valid() && currentAnimation != null
      modifies BonesOf(currentAnimation)
      ensures nodeTransform == NodeTransform(currentAnimation, currentTime, ops, node)
      ensures Settled(currentAnimation, old(Locals(currentAnimation)), Locals(currentAnimation), currentTime, ops)
    {
      nodeTransform := node.transformation;
      var found := FindBone(currentAnimation.bones, node.name);
      if found.Some? {
        var bone := currentAnimation.bones[found.value];
        bone.Update(currentTime, ops);
        nodeTransform := bone.localTransform;
      }
    }

    /** The store of one node: global * offset at its bone id, when the name
        is in the clip's bone table and the id is below MAX_BONES. */
    method StoreBoneMatrix(node: NodeData, globalTransformation: Mat4)
      requires Valid() && currentAnimation != null
      modifies finalBoneMatrices
      ensures finalBoneMatrices[..] ==
        ApplyWrites(old(finalBoneMatrices[..]), OwnWrite(currentAnimation, ops, node, globalTransformation))
    {
      var boneInfoMap := currentAnimation.boneInfoMap;
      if node.name in boneInfoMap {
        var index := boneInfoMap[node.name].id;
        var offset := boneInfoMap[node.name].offset;
        if index < MAX_BONES {
          finalBoneMatrices[index] := ops.mul(globalTransformation, offset);
        }
      }
    }

    /** calculateBoneTransform: performs the stores NodeWrites describes,
        and leaves every bone of the clip either as it was or holding its
        local transform at the current time. */
    method CalculateBoneTransform(node: NodeData, parentTransform: Mat4)
      requires Valid() && currentAnimation != null && WellFormed(node)
      modifies finalBoneMatrices, BonesOf(currentAnimation)
      ensures finalBoneMatrices[..] ==
        ApplyWrites(old(finalBoneMatrices[..]), NodeWrites(currentAnimation, currentTime, ops, node, parentTransform))
      ensures Settled(currentAnimation, old(Locals(currentAnimation)), Locals(currentAnimation), currentTime, ops)
      decreases node, 1
    {
      var anim := currentAnimation;
      ghost var start := Locals(anim);
      var nodeTransform := NodeLocal(node);
      var globalTransformation := ops.mul(parentTransform, nodeTransform);
      StoreBoneMatrix(node, globalTransformation);
      ApplyWritesAppend(old(finalBoneMatrices[..]), OwnWrite(anim, ops, node, globalTransformation),
                        ChildWrites(anim, currentTime, ops, node, globalTransformation, 0));
      ghost var target := ApplyWrites(old(finalBoneMatrices[..]), NodeWrites(anim, currentTime, ops, node, parentTransform));
      for i := 0 to node.childrenCount
        invariant ApplyWrites(finalBoneMatrices[..], ChildWrites(anim, currentTime, ops, node, globalTransformation, i)) == target
        invariant Settled(anim, start, Locals(anim), currentTime, ops)
      {
        VisitChild(node, i, globalTransformation, target, start);
      }
    }

    /** One turn of calculateBoneTransform's loop over the children: the
        child's subtree is posed, which performs its writes and keeps every
        bone settled. */
    method VisitChild(node: NodeData, i: nat, globalTransformation: Mat4, ghost target: seq<Mat4>, ghost start: seq<Mat4>)
      requires Valid() && currentAnimation != null && WellFormed(node) && i < node.childrenCount
      requires ApplyWrites(finalBoneMatrices[..], ChildWrites(currentAnimation, currentTime, ops, node, globalTransformation, i))
        == target
      requires Settled(currentAnimation, start, Locals(currentAnimation), currentTime, ops)
      modifies finalBoneMatrices, BonesOf(currentAnimation)
      ensures ApplyWrites(finalBoneMatrices[..], ChildWrites(currentAnimation, currentTime, ops, node, globalTransformation, i + 1))
        == target
      ensures Settled(currentAnimation, start, Locals(currentAnimation), currentTime, ops)
      decreases node, 0
    {
      var anim := currentAnimation;
      ghost var before := finalBoneMatrices[..];
      ghost var mid := Locals(anim);
      CalculateBoneTransform(node.children[i], globalTransformation);
      SettledTransitive(anim, start, mid, Locals(anim), currentTime, ops);
      ApplyWritesAppend(before, NodeWrites(anim, currentTime, ops, node.children[i], globalTransformation),
                        ChildWrites(anim, currentTime, ops, node, globalTransformation, i + 1));
    }

    /** updateAnimation: stores dt; with a clip and playing, advances the
        clock and re-poses; otherwise leaves time and matrices alone. */
    method UpdateAnimation(dt: real)
      requires Valid()
      modifies this, finalBoneMatrices, BonesOf(currentAnimation)
      ensures Valid() && deltaTime == dt
      ensures currentAnimation == old(currentAnimation) && playing == old(playing)
      ensures old(currentAnimation) != null && old(playing) ==>
        && currentTime == NextTime(old(currentTime), Ticks(old(currentAnimation), dt),
                                   old(currentAnimation).duration)
        && finalBoneMatrices[..] == Pose(currentAnimation, currentTime, ops, old(finalBoneMatrices[..]))
      ensures !(old(currentAnimation) != null && old(playing)) ==>
        currentTime == old(currentTime) && finalBoneMatrices[..] == old(finalBoneMatrices[..])
      ensures old(currentAnimation) != null && old(playing) ==>
        Settled(currentAnimation, old(Locals(currentAnimation)), Locals(currentAnimation), currentTime, ops)
      ensures old(currentAnimation) != null && !old(playing) ==>
        Locals(currentAnimation) == old(Locals(currentAnimation))
    {
      if currentAnimation != null && playing {
        currentTime := NextTime(currentTime, Ticks(currentAnimation, dt), currentAnimation.duration);
        CalculateBoneTransform(currentAnimation.rootNode, Identity);
      }
      deltaTime := dt;
    }

    /** playAnimation: switches to the clip at time 0, stopped, and poses it
        once when it is non-null. */
    method PlayAnimation(animation: Animation?)
      requires Valid() && (animation != null ==> animation.Posable())
      modifies this, finalBoneMatrices, BonesOf(animation)
      ensures Valid() && currentAnimation == animation
      ensures currentTime == 0.0 && !playing && deltaTime == old(deltaTime)
      ensures animation != null ==> finalBoneMatrices[..] == Pose(animation, 0.0, ops, old(finalBoneMatrices[..]))
      ensures animation == null ==> finalBoneMatrices[..] == old(finalBoneMatrices[..])
      ensures animation != null ==> Settled(animation, old(Locals(animation)), Locals(animation), 0.0, ops)
    {
      currentAnimation := animation;
      currentTime := 0.0;
      playing := false;
      if animation != null {
        assert Locals(animation) == old(Locals(animation));
        CalculateBoneTransform(animation.rootNode, Identity);
      }
    }

    method Stop()
      modifies this
      ensures !playing
      ensures currentAnimation == old(currentAnimation) && currentTime == old(currentTime)
      ensures deltaTime == old(deltaTime)
    {
      playing := false;
    }

    method Play()
      modifies this
      ensures playing
      ensures currentAnimation == old(currentAnimation) && currentTime == old(currentTime)
      ensures deltaTime == old(deltaTime)
    {
      playing := true;
    }

    /** reset: time back to 0 and a fresh pose, the play flag untouched. */
    method Reset()
      requires Valid()
      modifies this, finalBoneMatrices, BonesOf(currentAnimation)
      ensures Valid() && currentTime == 0.0
      ensures currentAnimation == old(currentAnimation) && playing == old(playing)
      ensures deltaTime == old(deltaTime)
      ensures currentAnimation != null ==>
        finalBoneMatrices[..] == Pose(currentAnimation, 0.0, ops, old(finalBoneMatrices[..]))
      ensures currentAnimation == null ==> finalBoneMatrices[..] == old(finalBoneMatrices[..])
      ensures currentAnimation != null ==>
        Settled(currentAnimation, old(Locals(currentAnimation)), Locals(currentAnimation), 0.0, ops)
    {
      currentTime := 0.0;
      if currentAnimation != null {
        CalculateBoneTransform(currentAnimation.rootNode, Identity);
      }
    }
  }
}
