/** One animated bone (source/common/animation/bone.hpp): the keyframes of
    its position, rotation and scale channels, the scan that picks the
    keyframe segment for a time, the interpolation factor, and the local
    transform the bone holds after an update. */
module Keyframes {
  import opened LinAlg
  import opened Wrappers
  import Importer

  datatype KeyPosition = KeyPosition(position: Vec3, timeStamp: real)
  datatype KeyRotation = KeyRotation(orientation: Quat, timeStamp: real)
  datatype KeyScale = KeyScale(scale: Vec3, timeStamp: real)

  /** The timestamps of a key track, in order. */
  function Times<K>(keys: seq<K>, stamp: K -> real): (ts: seq<real>)
    ensures |ts| == |keys| && forall i :: 0 <= i < |keys| ==> ts[i] == stamp(keys[i])
  {
    seq(|keys|, i requires 0 <= i < |keys| => stamp(keys[i]))
  }

  function PositionTimes(keys: seq<KeyPosition>): seq<real> {
    Times(keys, (k: KeyPosition) => k.timeStamp)
  }

  function RotationTimes(keys: seq<KeyRotation>): seq<real> {
    Times(keys, (k: KeyRotation) => k.timeStamp)
  }

  function ScaleTimes(keys: seq<KeyScale>): seq<real> {
    Times(keys, (k: KeyScale) => k.timeStamp)
  }

  ghost predicate NonDecreasing(ts: seq<real>) {
    forall i, j :: 0 <= i <= j < |ts| ==> ts[i] <= ts[j]
  }

  ghost predicate StrictlyIncreasing(ts: seq<real>) {
    forall i, j :: 0 <= i < j < |ts| ==> ts[i] < ts[j]
  }

  /** `r` is what the keyframe scan returns for time `t`, looking at the
      segments from `lo` on: the first segment `r` whose end `ts[r + 1]` lies
      after `t`, or the last key `|ts| - 1` when there is none (so every key
      after `lo` up to `r` lies at or before `t`). */
  ghost predicate IsKeyIndexFrom(ts: seq<real>, t: real, lo: nat, r: int) {
    || (lo <= r < |ts| - 1 && t < ts[r + 1] && forall k :: lo < k <= r ==> ts[k] <= t)
    || (r == |ts| - 1 && forall k :: lo < k < |ts| ==> ts[k] <= t)
  }

  ghost predicate IsKeyIndex(ts: seq<real>, t: real, r: int) {
    IsKeyIndexFrom(ts, t, 0, r)
  }

  function KeyIndexFrom(ts: seq<real>, t: real, lo: nat): (r: int)
    ensures IsKeyIndexFrom(ts, t, lo, r)
    ensures |ts| == 0 ==> r == -1
    ensures 1 <= |ts| ==> 0 <= r < |ts|
    decreases |ts| - lo
  {
    if lo + 1 >= |ts| then |ts| - 1
    else if t < ts[lo + 1] then lo
    else KeyIndexFrom(ts, t, lo + 1)
  }

  /** The keyframe index getPositionIndex, getRotationIndex and
      getScaleIndex compute for time `t` over timestamps `ts`. */
  function KeyIndex(ts: seq<real>, t: real): (r: int)
    ensures IsKeyIndex(ts, t, r)
    ensures |ts| == 0 ==> r == -1
    ensures 1 <= |ts| ==> 0 <= r < |ts|
  {
    KeyIndexFrom(ts, t, 0)
  }

  /** The scan's answer is determined by its characterisation. */
  lemma KeyIndexUnique(ts: seq<real>, t: real, r: int)
    requires IsKeyIndex(ts, t, r)
    ensures r == KeyIndex(ts, t)
  {
  }

  /** For sorted timestamps and a time inside [ts[0], ts[n-1]), the scan
      finds the segment containing the time. */
  lemma KeyIndexBrackets(ts: seq<real>, t: real)
    requires NonDecreasing(ts) && 1 <= |ts|
    requires ts[0] <= t < ts[|ts| - 1]
    ensures var i := KeyIndex(ts, t);
      0 <= i < |ts| - 1 && ts[i] <= t < ts[i + 1]
  {
    var i := KeyIndex(ts, t);
    if 0 < i {
      assert ts[i] <= t;
    }
  }

  /** A time inside segment i of sorted timestamps selects segment i. */
  lemma KeyIndexOfSegment(ts: seq<real>, t: real, i: nat)
    requires NonDecreasing(ts) && i + 1 < |ts|
    requires ts[i] <= t < ts[i + 1]
    ensures KeyIndex(ts, t) == i
  {
    assert IsKeyIndex(ts, t, i) by {
      forall k | 0 < k <= i
        ensures ts[k] <= t
      {
        assert ts[k] <= ts[i];
      }
    }
    KeyIndexUnique(ts, t, i);
  }

  /** At or after the last timestamp the scan stops at the last key. */
  lemma KeyIndexAtEnd(ts: seq<real>, t: real)
    requires NonDecreasing(ts) && 1 <= |ts|
    requires ts[|ts| - 1] <= t
    ensures KeyIndex(ts, t) == |ts| - 1
  {
    assert IsKeyIndex(ts, t, |ts| - 1) by {
      forall k | 0 < k < |ts|
        ensures ts[k] <= t
      {
        assert ts[k] <= ts[|ts| - 1];
      }
    }
    KeyIndexUnique(ts, t, |ts| - 1);
  }

  /** The second key of the pair: the next key, or the key itself when it
      is the last one. */
  function UpperIndex(p0: int, n: int): (p1: int)
    requires 0 <= p0 < n
    ensures 0 <= p1 < n
    ensures p0 < n - 1 ==> p1 == p0 + 1
    ensures p0 == n - 1 ==> p1 == p0
  {
    if p0 + 1 >= n then p0 else p0 + 1
  }

  /** getScaleFactor as written: (t - last) / (next - last), with no guard.
      `None` stands for the infinite or NaN quotient the float division
      yields when the two timestamps coincide. */
  function ScaleFactorAsWritten(last: real, next: real, t: real): (f: Option<real>)
    ensures f.None? <==> next == last
    ensures f.Some? ==> f.value * (next - last) == t - last
  {
    if next - last == 0.0 then None else Some((t - last) / (next - last))
  }

  /** The interpolation factor with the zero-length segment guarded: a
      segment whose two keys share a timestamp yields the first key. */
  function ScaleFactor(last: real, next: real, t: real): (f: real)
    ensures next == last ==> f == 0.0
    ensures next != last ==> f * (next - last) == t - last
    ensures last < next && last <= t <= next ==> 0.0 <= f <= 1.0
  {
    if next == last then 0.0
    else
      var f := (t - last) / (next - last);
      if last < next && last <= t <= next then
        QuotientBounds(t - last, next - last);
        f
      else f
  }

  lemma QuotientBounds(a: real, b: real)
    requires 0.0 <= a <= b && 0.0 < b
    ensures 0.0 <= a / b <= 1.0
  {
    var q := a / b;
    assert q * b == a;
    if q < 0.0 {
      PositiveProduct(-q, b);
      assert false;
    }
    if q > 1.0 {
      PositiveProduct(q - 1.0, b);
      assert false;
    }
  }

  lemma PositiveProduct(a: real, b: real)
    requires 0.0 < a && 0.0 < b
    ensures 0.0 < a * b
  {
  }

  /** The interpolated position at time t (interpolatePosition before
      glm::translate). */
  function PositionAt(keys: seq<KeyPosition>, t: real): Vec3
    requires 1 <= |keys|
  {
    if |keys| == 1 then keys[0].position
    else
      var p0 := KeyIndex(PositionTimes(keys), t);
      var p1 := UpperIndex(p0, |keys|);
      Mix3(keys[p0].position, keys[p1].position,
           ScaleFactor(keys[p0].timeStamp, keys[p1].timeStamp, t))
  }

  /** The interpolated scale at time t (interpolateScaling before
      glm::scale). */
  function ScaleAt(keys: seq<KeyScale>, t: real): Vec3
    requires 1 <= |keys|
  {
    if |keys| == 1 then keys[0].scale
    else
      var p0 := KeyIndex(ScaleTimes(keys), t);
      var p1 := UpperIndex(p0, |keys|);
      Mix3(keys[p0].scale, keys[p1].scale,
           ScaleFactor(keys[p0].timeStamp, keys[p1].timeStamp, t))
  }

  /** The interpolated, normalised orientation at time t
      (interpolateRotation before glm::toMat4). */
  function RotationAt(keys: seq<KeyRotation>, t: real, ops: Glm): Quat
    requires 1 <= |keys|
  {
    if |keys| == 1 then ops.normalize(keys[0].orientation)
    else
      var p0 := KeyIndex(RotationTimes(keys), t);
      var p1 := UpperIndex(p0, |keys|);
      ops.normalize(ops.slerp(keys[p0].orientation, keys[p1].orientation,
                              ScaleFactor(keys[p0].timeStamp, keys[p1].timeStamp, t)))
  }

  /** A factor computed at the segment's own start is 0. */
  lemma FactorAtStart(last: real, next: real)
    ensures ScaleFactor(last, next, last) == 0.0
  {
    var f := ScaleFactor(last, next, last);
    if next != last {
      assert f * (next - last) == 0.0;
      if f != 0.0 {
        NonZeroProduct(f, next - last);
      }
    }
  }

  lemma NonZeroProduct(a: real, b: real)
    requires a != 0.0 && b != 0.0
    ensures a * b != 0.0
  {
    if a < 0.0 && b < 0.0 {
      PositiveProduct(-a, -b);
    } else if a < 0.0 {
      PositiveProduct(-a, b);
    } else if b < 0.0 {
      PositiveProduct(a, -b);
    } else {
      PositiveProduct(a, b);
    }
  }

  /** With strictly increasing timestamps, sampling at a key's own time
      gives that key's position, for every key but the last (whose segment
      is the zero-length one). */
  lemma PositionAtKey(keys: seq<KeyPosition>, i: nat)
    requires 2 <= |keys| && i + 1 < |keys|
    requires StrictlyIncreasing(PositionTimes(keys))
    ensures PositionAt(keys, keys[i].timeStamp) == keys[i].position
  {
    var ts := PositionTimes(keys);
    KeyIndexOfSegment(ts, keys[i].timeStamp, i);
    FactorAtStart(keys[i].timeStamp, keys[i + 1].timeStamp);
  }

  /** The same for scale keys. */
  lemma ScaleAtKey(keys: seq<KeyScale>, i: nat)
    requires 2 <= |keys| && i + 1 < |keys|
    requires StrictlyIncreasing(ScaleTimes(keys))
    ensures ScaleAt(keys, keys[i].timeStamp) == keys[i].scale
  {
    var ts := ScaleTimes(keys);
    KeyIndexOfSegment(ts, keys[i].timeStamp, i);
    FactorAtStart(keys[i].timeStamp, keys[i + 1].timeStamp);
  }

  /** At or after the last key a track holds the last key's value. */
  lemma PositionAfterLastKey(keys: seq<KeyPosition>, t: real)
    requires 1 <= |keys| && NonDecreasing(PositionTimes(keys))
    requires keys[|keys| - 1].timeStamp <= t
    ensures PositionAt(keys, t) == keys[|keys| - 1].position
  {
    if 2 <= |keys| {
      KeyIndexAtEnd(PositionTimes(keys), t);
    }
  }

  lemma ScaleAfterLastKey(keys: seq<KeyScale>, t: real)
    requires 1 <= |keys| && NonDecreasing(ScaleTimes(keys))
    requires keys[|keys| - 1].timeStamp <= t
    ensures ScaleAt(keys, t) == keys[|keys| - 1].scale
  {
    if 2 <= |keys| {
      KeyIndexAtEnd(ScaleTimes(keys), t);
    }
  }

  /** A single key is used whatever the time. */
  lemma SingleKeyIgnoresTime(p: KeyPosition, r: KeyRotation, s: KeyScale, t: real, ops: Glm)
    ensures PositionAt([p], t) == p.position
    ensures ScaleAt([s], t) == s.scale
    ensures RotationAt([r], t, ops) == ops.normalize(r.orientation)
  {
  }

  /** Before the second key, a track mixes its first two keys. */
  lemma PositionBeforeSecondKey(keys: seq<KeyPosition>, t: real)
    requires 2 <= |keys| && t < keys[1].timeStamp
    ensures PositionAt(keys, t) == Mix3(keys[0].position, keys[1].position,
                                        ScaleFactor(keys[0].timeStamp, keys[1].timeStamp, t))
  {
    KeyIndexUnique(PositionTimes(keys), t, 0);
  }

  /** Halfway in time between two keys, the position is the even mix of
      the two. */
  lemma PositionHalfway(keys: seq<KeyPosition>)
    requires 2 <= |keys| && keys[0].timeStamp < keys[1].timeStamp
    ensures PositionAt(keys, (keys[0].timeStamp + keys[1].timeStamp) / 2.0)
            == Mix3(keys[0].position, keys[1].position, 0.5)
  {
    var t0, t1 := keys[0].timeStamp, keys[1].timeStamp;
    var t := (t0 + t1) / 2.0;
    PositionBeforeSecondKey(keys, t);
    FactorUnique(t0, t1, t, 0.5);
  }

  /** The factor is the one number that scales the segment's length to the
      time elapsed since its start. */
  lemma FactorUnique(last: real, next: real, t: real, f: real)
    requires next != last && f * (next - last) == t - last
    ensures ScaleFactor(last, next, t) == f
  {
    var s := ScaleFactor(last, next, t);
    if s != f {
      NonZeroProduct(s - f, next - last);
      assert false;
    }
  }

  /** Before the first key the track is not clamped: the factor is
      negative, so the first segment's line is extended backwards. */
  lemma PositionExtrapolatesBeforeFirstKey(keys: seq<KeyPosition>, t: real)
    requires 2 <= |keys| && keys[0].timeStamp < keys[1].timeStamp && t < keys[0].timeStamp
    ensures var f := ScaleFactor(keys[0].timeStamp, keys[1].timeStamp, t);
      && PositionAt(keys, t) == Mix3(keys[0].position, keys[1].position, f)
      && f < 0.0
  {
    var t0, t1 := keys[0].timeStamp, keys[1].timeStamp;
    PositionBeforeSecondKey(keys, t);
    var f := ScaleFactor(t0, t1, t);
    var d := t1 - t0;
    assert f * d == t - t0;
    if f > 0.0 {
      PositiveProduct(f, d);
      assert false;
    } else if f == 0.0 {
      assert false;
    }
  }

  /** interpolatePosition as written: the unguarded factor, `None` where
      the float division yields NaN and so does the mixed position. */
  function PositionAtAsWritten(keys: seq<KeyPosition>, t: real): (r: Option<Vec3>)
    requires 1 <= |keys|
    ensures r.Some? ==> r.value == PositionAt(keys, t)
  {
    if |keys| == 1 then Some(keys[0].position)
    else
      var p0 := KeyIndex(PositionTimes(keys), t);
      var p1 := UpperIndex(p0, |keys|);
      match ScaleFactorAsWritten(keys[p0].timeStamp, keys[p1].timeStamp, t)
      case None => None
      case Some(f) => Some(Mix3(keys[p0].position, keys[p1].position, f))
  }

  /** As written, a track of two or more keys has no defined position at
      or after its last key: the scan returns the last key, the upper index
      clamps to it, and the factor divides by zero. */
  lemma PositionAsWrittenUndefinedAtEnd(keys: seq<KeyPosition>, t: real)
    requires 2 <= |keys| && NonDecreasing(PositionTimes(keys))
    requires keys[|keys| - 1].timeStamp <= t
    ensures PositionAtAsWritten(keys, t) == None
  {
    KeyIndexAtEnd(PositionTimes(keys), t);
  }

  /** The concrete case: keys at 0 and 5, sampled at 5. */
  lemma PositionAsWrittenAtLastKey(keys: seq<KeyPosition>)
    requires keys == [KeyPosition(Zero3, 0.0), KeyPosition(One3, 5.0)]
    ensures PositionAtAsWritten(keys, 5.0) == None
    ensures PositionAt(keys, 5.0) == One3
  {
    PositionAsWrittenUndefinedAtEnd(keys, 5.0);
    PositionAfterLastKey(keys, 5.0);
  }

  class Bone {
    const positions: seq<KeyPosition>
    const rotations: seq<KeyRotation>
    const scales: seq<KeyScale>
    const numPositions: int
    const numRotations: int
    const numScales: int
    const name: string
    const id: int
    var localTransform: Mat4

    /** The counts agree with the key vectors. */
    predicate Valid() {
      numPositions == |positions| && numRotations == |rotations| && numScales == |scales|
    }

    /** Every channel has at least one key, which interpolation needs: with
        none, the scan returns -1 and the source reads keys[-1]. */
    predicate HasKeys() {
      1 <= |positions| && 1 <= |rotations| && 1 <= |scales|
    }

    /** The local transform T(t) * R(t) * S(t) that update(t) stores. */
    function LocalAt(t: real, ops: Glm): Mat4
      requires HasKeys()
    {
      ops.mul(ops.mul(Translate(PositionAt(positions, t)), ops.toMat4(RotationAt(rotations, t, ops))),
              ScaleMatrix(ScaleAt(scales, t)))
    }

    /** The key vectors hold exactly the channel's keys, in the channel's
        order, and each count equals its vector's length. */
    predicate Copies(channel: Importer.NodeAnim) {
      && Valid()
      && |positions| == |channel.positionKeys|
      && (forall i :: 0 <= i < |positions| ==>
            positions[i] == KeyPosition(channel.positionKeys[i].value, channel.positionKeys[i].time))
      && |rotations| == |channel.rotationKeys|
      && (forall i :: 0 <= i < |rotations| ==>
            rotations[i] == KeyRotation(channel.rotationKeys[i].value, channel.rotationKeys[i].time))
      && |scales| == |channel.scalingKeys|
      && (forall i :: 0 <= i < |scales| ==>
            scales[i] == KeyScale(channel.scalingKeys[i].value, channel.scalingKeys[i].time))
    }

    /** Copies the channel's keys, in order, into the three key vectors. */
    constructor (name: string, id: int, channel: Importer.NodeAnim)
      ensures Copies(channel)
      ensures this.name == name && this.id == id && localTransform == Identity
    {
      var ps: seq<KeyPosition> := [];
      var i := 0;
      while i < |channel.positionKeys|
        invariant 0 <= i <= |channel.positionKeys| && |ps| == i
        invariant forall k :: 0 <= k < i ==>
          ps[k] == KeyPosition(channel.positionKeys[k].value, channel.positionKeys[k].time)
      {
        ps := ps + [KeyPosition(channel.positionKeys[i].value, channel.positionKeys[i].time)];
        i := i + 1;
      }
      var rs: seq<KeyRotation> := [];
      i := 0;
      while i < |channel.rotationKeys|
        invariant 0 <= i <= |channel.rotationKeys| && |rs| == i
        invariant forall k :: 0 <= k < i ==>
          rs[k] == KeyRotation(channel.rotationKeys[k].value, channel.rotationKeys[k].time)
      {
        rs := rs + [KeyRotation(channel.rotationKeys[i].value, channel.rotationKeys[i].time)];
        i := i + 1;
      }
      var ss: seq<KeyScale> := [];
      i := 0;
      while i < |channel.scalingKeys|
        invariant 0 <= i <= |channel.scalingKeys| && |ss| == i
        invariant forall k :: 0 <= k < i ==>
          ss[k] == KeyScale(channel.scalingKeys[k].value, channel.scalingKeys[k].time)
      {
        ss := ss + [KeyScale(channel.scalingKeys[i].value, channel.scalingKeys[i].time)];
        i := i + 1;
      }
      this.name := name;
      this.id := id;
      localTransform := Identity;
      positions, numPositions := ps, |ps|;
      rotations, numRotations := rs, |rs|;
      scales, numScales := ss, |ss|;
    }

    /** Stores the local transform for `animationTime`; nothing else of the
        bone changes. */
    method Update(animationTime: real, ops: Glm)
      requires Valid() && HasKeys()
      modifies this
      ensures localTransform == LocalAt(animationTime, ops)
    {
      var translation := InterpolatePosition(animationTime);
      var rotation := InterpolateRotation(animationTime, ops);
      var scale := InterpolateScaling(animationTime);
      localTransform := ops.mul(ops.mul(translation, rotation), scale);
    }

    method GetPositionIndex(animationTime: real) returns (r: int)
      requires Valid()
      ensures IsKeyIndex(PositionTimes(positions), animationTime, r)
      ensures r == KeyIndex(PositionTimes(positions), animationTime)
    {
      var i := 0;
      while i < numPositions - 1
        invariant 0 <= i <= (if 1 <= numPositions then numPositions - 1 else 0)
        invariant forall k :: 0 < k <= i ==> positions[k].timeStamp <= animationTime
      {
        if animationTime < positions[i + 1].timeStamp {
          r := i;
          KeyIndexUnique(PositionTimes(positions), animationTime, r);
          return;
        }
        i := i + 1;
      }
      r := numPositions - 1;
      KeyIndexUnique(PositionTimes(positions), animationTime, r);
    }

    method GetRotationIndex(animationTime: real) returns (r: int)
      requires Valid()
      ensures IsKeyIndex(RotationTimes(rotations), animationTime, r)
      ensures r == KeyIndex(RotationTimes(rotations), animationTime)
    {
      var i := 0;
      while i < numRotations - 1
        invariant 0 <= i <= (if 1 <= numRotations then numRotations - 1 else 0)
        invariant forall k :: 0 < k <= i ==> rotations[k].timeStamp <= animationTime
      {
        if animationTime < rotations[i + 1].timeStamp {
          r := i;
          KeyIndexUnique(RotationTimes(rotations), animationTime, r);
          return;
        }
        i := i + 1;
      }
      r := numRotations - 1;
      KeyIndexUnique(RotationTimes(rotations), animationTime, r);
    }

    method GetScaleIndex(animationTime: real) returns (r: int)
      requires Valid()
      ensures IsKeyIndex(ScaleTimes(scales), animationTime, r)
      ensures r == KeyIndex(ScaleTimes(scales), animationTime)
    {
      var i := 0;
      while i < numScales - 1
        invariant 0 <= i <= (if 1 <= numScales then numScales - 1 else 0)
        invariant forall k :: 0 < k <= i ==> scales[k].timeStamp <= animationTime
      {
        if animationTime < scales[i + 1].timeStamp {
          r := i;
          KeyIndexUnique(ScaleTimes(scales), animationTime, r);
          return;
        }
        i := i + 1;
      }
      r := numScales - 1;
      KeyIndexUnique(ScaleTimes(scales), animationTime, r);
    }

    method InterpolatePosition(animationTime: real) returns (m: Mat4)
      requires Valid() && 1 <= |positions|
      ensures m == Translate(PositionAt(positions, animationTime))
    {
      if numPositions == 1 {
        return Translate(positions[0].position);
      }
      var p0 := GetPositionIndex(animationTime);
      var p1 := p0 + 1;
      if p1 >= numPositions {
        p1 := p0;
      }
      var factor := ScaleFactor(positions[p0].timeStamp, positions[p1].timeStamp, animationTime);
      m := Translate(Mix3(positions[p0].position, positions[p1].position, factor));
    }

    method InterpolateRotation(animationTime: real, ops: Glm) returns (m: Mat4)
      requires Valid() && 1 <= |rotations|
      ensures m == ops.toMat4(RotationAt(rotations, animationTime, ops))
    {
      if numRotations == 1 {
        return ops.toMat4(ops.normalize(rotations[0].orientation));
      }
      var p0 := GetRotationIndex(animationTime);
      var p1 := p0 + 1;
      if p1 >= numRotations {
        p1 := p0;
      }
      var factor := ScaleFactor(rotations[p0].timeStamp, rotations[p1].timeStamp, animationTime);
      var q := ops.slerp(rotations[p0].orientation, rotations[p1].orientation, factor);
      m := ops.toMat4(ops.normalize(q));
    }

    method InterpolateScaling(animationTime: real) returns (m: Mat4)
      requires Valid() && 1 <= |scales|
      ensures m == ScaleMatrix(ScaleAt(scales, animationTime))
    {
      if numScales == 1 {
        return ScaleMatrix(scales[0].scale);
      }
      var p0 := GetScaleIndex(animationTime);
      var p1 := p0 + 1;
      if p1 >= numScales {
        p1 := p0;
      }
      var factor := ScaleFactor(scales[p0].timeStamp, scales[p1].timeStamp, animationTime);
      m := ScaleMatrix(Mix3(scales[p0].scale, scales[p1].scale, factor));
    }
  }
}
