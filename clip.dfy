/** One loaded animation clip (source/common/animation/animation.hpp): the
    copied node hierarchy, the shared bone table that names every bone and
    gives it an id and an offset matrix, and one keyframe track per animated
    node. */
module Clip {
  import opened LinAlg
  import opened Wrappers
  import opened Keyframes
  import Importer

  /** BoneInfo: the bone's slot in the final matrix array and its offset. */
  datatype BoneInfo = BoneInfo(id: int, offset: Mat4)

  /** AssimpNodeData: a node of the copied hierarchy. */
  datatype NodeData = NodeData(transformation: Mat4, name: string, childrenCount: int,
                               children: seq<NodeData>)

  /** Every node's count matches its children, so a walk that loops up to
      `childrenCount` and indexes `children` stays in bounds. */
  predicate WellFormed(n: NodeData) {
    n.childrenCount == |n.children| && forall i :: 0 <= i < |n.children| ==> WellFormed(n.children[i])
  }

  /** `dest` is a copy of the importer node `src`: the same name, the
      transform converted to column-major, and a copy of each child in order. */
  ghost predicate Mirrors(dest: NodeData, src: Importer.AiNode) {
    && dest.name == src.name
    && dest.transformation == ConvertMatrix(src.transformation)
    && dest.childrenCount == |src.children|
    && |dest.children| == |src.children|
    && forall i :: 0 <= i < |src.children| ==> Mirrors(dest.children[i], src.children[i])
  }

  lemma {:induction false} MirrorsWellFormed(dest: NodeData, src: Importer.AiNode)
    requires Mirrors(dest, src)
    ensures WellFormed(dest)
    decreases src
  {
    forall i | 0 <= i < |dest.children|
      ensures WellFormed(dest.children[i])
    {
      MirrorsWellFormed(dest.children[i], src.children[i]);
    }
  }

  /** A node has exactly one copy. */
  lemma {:induction false} MirrorsUnique(d1: NodeData, d2: NodeData, src: Importer.AiNode)
    requires Mirrors(d1, src) && Mirrors(d2, src)
    ensures d1 == d2
    decreases src
  {
    forall i | 0 <= i < |src.children|
      ensures d1.children[i] == d2.children[i]
    {
      MirrorsUnique(d1.children[i], d2.children[i], src.children[i]);
    }
    assert d1.children == d2.children;
  }

  /** readHierarchyData: copies the node, then each child recursively, in
      child order. */
  method ReadHierarchyData(src: Importer.AiNode) returns (dest: NodeData)
    ensures Mirrors(dest, src)
    decreases src
  {
    var children: seq<NodeData> := [];
    var i := 0;
    while i < |src.children|
      invariant 0 <= i <= |src.children| && |children| == i
      invariant forall k :: 0 <= k < i ==> Mirrors(children[k], src.children[k])
    {
      var child := ReadHierarchyData(src.children[i]);
      children := children + [child];
      i := i + 1;
    }
    dest := NodeData(ConvertMatrix(src.transformation), src.name, |src.children|, children);
  }

  /** Every entry of a bone table has a non-negative id, as every id the
      mesh loader and the clip loader hand out is. */
  predicate IdsNonNegative(m: map<string, BoneInfo>) {
    forall k :: k in m ==> 0 <= m[k].id
  }

  /** No two names share an id. */
  ghost predicate IdsDistinct(m: map<string, BoneInfo>) {
    forall k1, k2 :: k1 in m && k2 in m && k1 != k2 ==> m[k1].id != m[k2].id
  }

  ghost predicate IdsBelow(m: map<string, BoneInfo>, n: int) {
    forall k :: k in m ==> m[k].id < n
  }

  /** The bone table a skeletal mesh and all of its clips share: the
      component owns it and the loaders extend it in place. */
  class BoneTable {
    var entries: map<string, BoneInfo>

    predicate Valid()
      reads this
    {
      IdsNonNegative(entries)
    }

    constructor ()
      ensures Valid() && entries == map[]
    {
      entries := map[];
    }
  }

  /** `n` is the count readMissingBones starts from: one more than the
      largest id in the table, or 0 when no id is non-negative. */
  ghost predicate IsBoneCount(m: map<string, BoneInfo>, n: int) {
    && 0 <= n
    && IdsBelow(m, n)
    && (n == 0 || exists k :: k in m && m[k].id == n - 1)
  }

  lemma BoneCountUnique(m: map<string, BoneInfo>, n1: int, n2: int)
    requires IsBoneCount(m, n1) && IsBoneCount(m, n2)
    ensures n1 == n2
  {
  }

  /** The bone count of a table, whichever order its entries are visited in. */
  ghost function BoneCount(m: map<string, BoneInfo>): (n: int)
    ensures IsBoneCount(m, n)
    decreases |m|
  {
    if |m| == 0 then 0
    else
      var k :| k in m;
      var rest := m - {k};
      assert |rest| == |m| - 1 by {
        assert rest.Keys == m.Keys - {k};
      }
      var r := BoneCount(rest);
      if m[k].id >= r then
        assert forall j :: j in m ==> m[j].id < m[k].id + 1 by {
          forall j | j in m
            ensures m[j].id < m[k].id + 1
          {
            if j != k {
              assert j in rest;
            }
          }
        }
        m[k].id + 1
      else
        assert r == 0 || exists w :: w in m && m[w].id == r - 1 by {
          if r != 0 {
            var w :| w in rest && rest[w].id == r - 1;
            assert w in m && m[w].id == r - 1;
          }
        }
        assert forall j :: j in m ==> m[j].id < r by {
          forall j | j in m
            ensures m[j].id < r
          {
            if j != k {
              assert j in rest;
            }
          }
        }
        r
  }

  /** The scan at the head of readMissingBones. */
  method CurrentBoneCount(m: map<string, BoneInfo>) returns (boneCount: int)
    ensures boneCount == BoneCount(m)
  {
    boneCount := 0;
    var todo := m.Keys;
    while todo != {}
      invariant todo <= m.Keys
      invariant 0 <= boneCount
      invariant forall k :: k in m && k !in todo ==> m[k].id < boneCount
      invariant boneCount == 0 || exists k :: k in m && k !in todo && m[k].id == boneCount - 1
      decreases todo
    {
      var k :| k in todo;
      if m[k].id >= boneCount {
        boneCount := m[k].id + 1;
      }
      todo := todo - {k};
    }
    BoneCountUnique(m, boneCount, BoneCount(m));
  }

  /** A bone a loader offers to the table: its name, and the offset it is
      stored with if the name is new. */
  datatype Candidate = Candidate(name: string, offset: Mat4)

  function NamesOf(cs: seq<Candidate>): (names: seq<string>)
    ensures |names| == |cs|
    ensures forall i :: 0 <= i < |cs| ==> names[i] == cs[i].name
  {
    seq(|cs|, i requires 0 <= i < |cs| => cs[i].name)
  }

  /** readMissingBones offers each channel's node name with an identity offset. */
  function ChannelCandidates(channels: seq<Importer.NodeAnim>): (cs: seq<Candidate>)
    ensures |cs| == |channels|
    ensures forall i :: 0 <= i < |channels| ==> cs[i] == Candidate(channels[i].nodeName, Identity)
  {
    seq(|channels|, i requires 0 <= i < |channels| => Candidate(channels[i].nodeName, Identity))
  }

  /** The table and the counter after `cs` have been offered in order: a
      name not yet in the table is stored with the counter as its id and the
      candidate's offset, and the counter moves on; a known name changes
      nothing.  Both readMissingBones and loadSkeletalMesh register bones
      this way. */
  function Register(m: map<string, BoneInfo>, cs: seq<Candidate>, next: int): (map<string, BoneInfo>, int)
    decreases |cs|
  {
    if cs == [] then (m, next)
    else
      var prev := Register(m, cs[..|cs| - 1], next);
      var c := cs[|cs| - 1];
      if c.name in prev.0 then prev
      else (prev.0[c.name := BoneInfo(prev.1, c.offset)], prev.1 + 1)
  }

  /** The candidates whose names are not in the table, each name once, at
      its first occurrence. */
  function NewCandidates(m: map<string, BoneInfo>, cs: seq<Candidate>): seq<Candidate>
    decreases |cs|
  {
    if cs == [] then []
    else
      var prev := NewCandidates(m, cs[..|cs| - 1]);
      var c := cs[|cs| - 1];
      if c.name in m || c.name in NamesOf(prev) then prev else prev + [c]
  }

  /** `c` sits in `cs` at a position no earlier candidate's name matches. */
  ghost predicate FirstOccurrence(c: Candidate, cs: seq<Candidate>) {
    exists i :: 0 <= i < |cs| && cs[i] == c && forall j :: 0 <= j < i ==> cs[j].name != c.name
  }

  /** Each new candidate is fresh to the table and sits at its name's
      first occurrence. */
  lemma {:induction false} NewCandidatesFirst(m: map<string, BoneInfo>, cs: seq<Candidate>)
    ensures forall j :: 0 <= j < |NewCandidates(m, cs)| ==>
      NewCandidates(m, cs)[j].name !in m && FirstOccurrence(NewCandidates(m, cs)[j], cs)
    decreases |cs|
  {
    if cs != [] {
      var init := cs[..|cs| - 1];
      var c := cs[|cs| - 1];
      NewCandidatesFirst(m, init);
      var pf := NewCandidates(m, init);
      var added := NewCandidates(m, cs);
      if c.name in m || c.name in NamesOf(pf) {
        forall j | 0 <= j < |added| ensures FirstOccurrence(added[j], cs) {
          FirstOccurrenceGrows(added[j], cs);
        }
      } else {
        NewCandidatesNames(m, init);
        forall j | 0 <= j < |added| ensures FirstOccurrence(added[j], cs) {
          if j < |pf| {
            FirstOccurrenceGrows(pf[j], cs);
          } else {
            FirstOccurrenceLast(cs);
          }
        }
      }
    }
  }

  /** A first occurrence stays one when a candidate is appended. */
  lemma FirstOccurrenceGrows(c: Candidate, cs: seq<Candidate>)
    requires cs != [] && FirstOccurrence(c, cs[..|cs| - 1])
    ensures FirstOccurrence(c, cs)
  {
    var init := cs[..|cs| - 1];
    var i :| 0 <= i < |init| && init[i] == c && forall j :: 0 <= j < i ==> init[j].name != c.name;
    assert cs[i] == c;
    assert forall j :: 0 <= j < i ==> cs[j] == init[j];
  }

  /** The last candidate is at its first occurrence when no earlier
      candidate has its name. */
  lemma FirstOccurrenceLast(cs: seq<Candidate>)
    requires cs != [] && cs[|cs| - 1].name !in NamesOf(cs[..|cs| - 1])
    ensures FirstOccurrence(cs[|cs| - 1], cs)
  {
    forall k | 0 <= k < |cs| - 1
      ensures cs[k].name != cs[|cs| - 1].name
    {
      assert NamesOf(cs[..|cs| - 1])[k] == cs[k].name;
    }
  }

  /** The new candidates' names are exactly the offered names the table
      lacks. */
  lemma {:induction false} NewCandidatesNames(m: map<string, BoneInfo>, cs: seq<Candidate>)
    ensures forall x :: x in NamesOf(cs) && x !in m <==> x in NamesOf(NewCandidates(m, cs))
    decreases |cs|
  {
    if cs != [] {
      var init := cs[..|cs| - 1];
      var c := cs[|cs| - 1];
      NewCandidatesNames(m, init);
      var pf := NewCandidates(m, init);
      var added := NewCandidates(m, cs);
      forall x | x in NamesOf(added)
        ensures x in NamesOf(cs) && x !in m
      {
        var j :| 0 <= j < |added| && NamesOf(added)[j] == x;
        if j < |pf| {
          assert NamesOf(pf)[j] == x;
          assert x in NamesOf(init);
          var i :| 0 <= i < |init| && NamesOf(init)[i] == x;
          assert NamesOf(cs)[i] == x;
        } else {
          assert NamesOf(cs)[|cs| - 1] == x;
        }
      }
      forall x | x in NamesOf(cs) && x !in m
        ensures x in NamesOf(added)
      {
        var i :| 0 <= i < |cs| && NamesOf(cs)[i] == x;
        if i < |init| {
          assert NamesOf(init)[i] == x;
          var j :| 0 <= j < |pf| && NamesOf(pf)[j] == x;
          assert NamesOf(added)[j] == x;
        } else if x !in NamesOf(pf) {
          assert NamesOf(added)[|added| - 1] == x;
        } else {
          var j :| 0 <= j < |pf| && NamesOf(pf)[j] == x;
          assert NamesOf(added)[j] == x;
        }
      }
    }
  }

  /** No name is added twice. */
  lemma {:induction false} NewCandidatesDistinct(m: map<string, BoneInfo>, cs: seq<Candidate>)
    ensures forall i, j :: 0 <= i < j < |NewCandidates(m, cs)| ==>
      NewCandidates(m, cs)[i].name != NewCandidates(m, cs)[j].name
    decreases |cs|
  {
    if cs != [] {
      var init := cs[..|cs| - 1];
      NewCandidatesDistinct(m, init);
      var pf := NewCandidates(m, init);
      var c := cs[|cs| - 1];
      if c.name !in m && c.name !in NamesOf(pf) {
        var added := pf + [c];
        forall i, j | 0 <= i < j < |added|
          ensures added[i].name != added[j].name
        {
          if j == |pf| {
            assert NamesOf(pf)[i] == pf[i].name;
          }
        }
      }
    }
  }

  /** The table registering produces: the old entries untouched, the k-th
      new candidate stored with id next + k, and nothing else. */
  lemma {:induction false} RegisterTable(m: map<string, BoneInfo>, cs: seq<Candidate>, next: int)
    ensures var (r, n) := Register(m, cs, next);
      var added := NewCandidates(m, cs);
      && n == next + |added|
      && (forall x :: x in r <==> x in m || x in NamesOf(added))
      && (forall x :: x in m ==> r[x] == m[x])
      && (forall j :: 0 <= j < |added| ==> added[j].name in r && r[added[j].name] == BoneInfo(next + j, added[j].offset))
    decreases |cs|
  {
    if cs != [] {
      var init := cs[..|cs| - 1];
      var c := cs[|cs| - 1];
      RegisterTable(m, init, next);
      var (pr, pn) := Register(m, init, next);
      var pf := NewCandidates(m, init);
      var added := NewCandidates(m, cs);
      assert c.name in pr <==> c.name in m || c.name in NamesOf(pf);
      if c.name !in pr {
        assert added == pf + [c];
        forall x | x in NamesOf(added)
          ensures x in NamesOf(pf) || x == c.name
        {
          var j :| 0 <= j < |added| && NamesOf(added)[j] == x;
          if j < |pf| {
            assert NamesOf(pf)[j] == x;
          }
        }
        forall x | x in NamesOf(pf)
          ensures x in NamesOf(added)
        {
          var j :| 0 <= j < |pf| && NamesOf(pf)[j] == x;
          assert NamesOf(added)[j] == x;
        }
        assert c.name == NamesOf(added)[|added| - 1];
      }
    }
  }

  /** What registering does to the table: every offered name ends up in it;
      old entries keep their id and offset; the k-th new name gets id
      next + k and the offset of its first candidate; and the counter ends
      one past the last new id. */
  lemma RegisterSpec(m: map<string, BoneInfo>, cs: seq<Candidate>, next: int)
    ensures var (r, n) := Register(m, cs, next);
      var added := NewCandidates(m, cs);
      && n == next + |added|
      && (forall x :: x in r <==> x in m || x in NamesOf(cs))
      && (forall x :: x in m ==> r[x] == m[x])
      && (forall j :: 0 <= j < |added| ==> added[j].name in r && r[added[j].name] == BoneInfo(next + j, added[j].offset))
      && (forall j :: 0 <= j < |added| ==> added[j].name !in m && FirstOccurrence(added[j], cs))
      && (forall i, j :: 0 <= i < j < |added| ==> added[i].name != added[j].name)
  {
    NewCandidatesFirst(m, cs);
    NewCandidatesNames(m, cs);
    NewCandidatesDistinct(m, cs);
    RegisterTable(m, cs, next);
  }

  /** Offering `a` and then `b` is offering `a + b`. */
  lemma {:induction false} RegisterAppend(m: map<string, BoneInfo>, a: seq<Candidate>, b: seq<Candidate>, next: int)
    ensures Register(m, a + b, next) == Register(Register(m, a, next).0, b, Register(m, a, next).1)
    decreases |b|
  {
    if b == [] {
      assert a + b == a;
    } else {
      assert (a + b)[..|a + b| - 1] == a + b[..|b| - 1];
      RegisterAppend(m, a, b[..|b| - 1], next);
    }
  }

  /** The first candidate, when its name is new, gets the starting counter
      as its id. */
  lemma {:induction false} RegisterFirstNew(m: map<string, BoneInfo>, cs: seq<Candidate>, next: int)
    requires cs != [] && cs[0].name !in m
    ensures cs[0].name in Register(m, cs, next).0
    ensures Register(m, cs, next).0[cs[0].name] == BoneInfo(next, cs[0].offset)
    decreases |cs|
  {
    if |cs| > 1 {
      RegisterFirstNew(m, cs[..|cs| - 1], next);
    }
  }

  /** Registering keeps ids distinct and below the counter. */
  lemma {:induction false} RegisterKeepsIdsDistinct(m: map<string, BoneInfo>, cs: seq<Candidate>, next: int)
    requires IdsDistinct(m) && IdsBelow(m, next)
    ensures var (r, n) := Register(m, cs, next);
      IdsDistinct(r) && IdsBelow(r, n) && next <= n
    decreases |cs|
  {
    if cs != [] {
      RegisterKeepsIdsDistinct(m, cs[..|cs| - 1], next);
    }
  }

  /** Registering from a table of non-negative ids with a non-negative
      counter keeps every id non-negative. */
  lemma {:induction false} RegisterKeepsIdsNonNegative(m: map<string, BoneInfo>, cs: seq<Candidate>, next: int)
    requires IdsNonNegative(m) && 0 <= next
    ensures IdsNonNegative(Register(m, cs, next).0) && 0 <= Register(m, cs, next).1
    decreases |cs|
  {
    if cs != [] {
      RegisterKeepsIdsNonNegative(m, cs[..|cs| - 1], next);
    }
  }

  /** The bones built so far carry their channels' keys and names and the
      table's ids for those names. */
  ghost predicate Carries(bones: seq<Bone>, channels: seq<Importer.NodeAnim>, m: map<string, BoneInfo>)
    requires |bones| <= |channels|
  {
    forall k :: 0 <= k < |bones| ==>
      && bones[k].Copies(channels[k])
      && bones[k].name == channels[k].nodeName
      && channels[k].nodeName in m
      && bones[k].id == m[channels[k].nodeName].id
  }

  /** One channel of readMissingBones: a name the table lacks gets the
      counter as its id and an identity offset, and the counter moves on;
      then a bone is built from the channel with the name's id. */
  method ReadChannel(channel: Importer.NodeAnim, table: BoneTable, boneCount: int) returns (count: int, bone: Bone)
    modifies table
    ensures (table.entries, count) == Register(old(table.entries), [Candidate(channel.nodeName, Identity)], boneCount)
    ensures forall x :: x in old(table.entries) ==> x in table.entries && table.entries[x] == old(table.entries)[x]
    ensures fresh(bone) && bone.Copies(channel) && bone.name == channel.nodeName
    ensures channel.nodeName in table.entries && bone.id == table.entries[channel.nodeName].id
  {
    var boneName := channel.nodeName;
    count := boneCount;
    if boneName !in table.entries {
      table.entries := table.entries[boneName := BoneInfo(boneCount, Identity)];
      count := boneCount + 1;
    }
    bone := new Bone(boneName, table.entries[boneName].id, channel);
  }

  /** Carrying is kept when the table only grows and one more bone for the
      next channel is added. */
  lemma CarriesNext(bones: seq<Bone>, channels: seq<Importer.NodeAnim>, m: map<string, BoneInfo>,
                    m': map<string, BoneInfo>, bone: Bone)
    requires |bones| < |channels| && Carries(bones, channels, m)
    requires forall x :: x in m ==> x in m' && m'[x] == m[x]
    requires bone.Copies(channels[|bones|]) && bone.name == channels[|bones|].nodeName
    requires channels[|bones|].nodeName in m' && bone.id == m'[channels[|bones|].nodeName].id
    ensures Carries(bones + [bone], channels, m')
  {
  }

  /** The state of readMissingBones after the first |bones| channels: the
      table is the starting table with their names registered, and each
      bone carries its channel and its table id. */
  ghost predicate ReadSoFar(start: map<string, BoneInfo>, channels: seq<Importer.NodeAnim>, bones: seq<Bone>,
                            entries: map<string, BoneInfo>, count: int)
  {
    && |bones| <= |channels|
    && (entries, count) == Register(start, ChannelCandidates(channels)[..|bones|], BoneCount(start))
    && Carries(bones, channels, entries)
  }

  /** One turn of readMissingBones' loop: the next channel is registered
      and its bone appended. */
  method ReadStep(channels: seq<Importer.NodeAnim>, table: BoneTable, ghost start: map<string, BoneInfo>,
                  bones: seq<Bone>, boneCount: int) returns (bones': seq<Bone>, boneCount': int)
    requires |bones| < |channels| && ReadSoFar(start, channels, bones, table.entries, boneCount)
    modifies table
    ensures |bones'| == |bones| + 1 && bones' == bones + [bones'[|bones|]] && fresh(bones'[|bones|])
    ensures ReadSoFar(start, channels, bones', table.entries, boneCount')
  {
    var i := |bones|;
    RegisterNextChannel(start, channels, i);
    ghost var before := table.entries;
    var bone;
    boneCount', bone := ReadChannel(channels[i], table, boneCount);
    CarriesNext(bones, channels, before, table.entries, bone);
    bones' := bones + [bone];
  }

  /** Registering channel i's name after the first i is registering the
      first i + 1. */
  lemma RegisterNextChannel(start: map<string, BoneInfo>, channels: seq<Importer.NodeAnim>, i: nat)
    requires i < |channels|
    ensures var prev := Register(start, ChannelCandidates(channels)[..i], BoneCount(start));
      Register(prev.0, [Candidate(channels[i].nodeName, Identity)], prev.1) ==
      Register(start, ChannelCandidates(channels)[..i + 1], BoneCount(start))
  {
    var cs := ChannelCandidates(channels);
    assert cs[..i + 1] == cs[..i] + [Candidate(channels[i].nodeName, Identity)];
    RegisterAppend(start, cs[..i], [Candidate(channels[i].nodeName, Identity)], BoneCount(start));
  }

  /** Once every channel is read, the table holds all their names and each
      bone carries its channel and its table id. */
  lemma ReadAll(start: map<string, BoneInfo>, channels: seq<Importer.NodeAnim>, bones: seq<Bone>,
                entries: map<string, BoneInfo>, count: int)
    requires |bones| == |channels| && ReadSoFar(start, channels, bones, entries, count)
    ensures entries == Register(start, ChannelCandidates(channels), BoneCount(start)).0
    ensures forall i :: 0 <= i < |channels| ==>
      && bones[i].Copies(channels[i])
      && bones[i].name == channels[i].nodeName
      && channels[i].nodeName in entries
      && bones[i].id == entries[channels[i].nodeName].id
  {
    assert ChannelCandidates(channels)[..|channels|] == ChannelCandidates(channels);
  }

  /** readMissingBones: registers each channel's node name in the shared
      table, in channel order, and builds one bone per channel carrying the
      table's id for its name. */
  method ReadMissingBones(channels: seq<Importer.NodeAnim>, table: BoneTable) returns (bones: seq<Bone>)
    modifies table
    ensures table.entries == Register(old(table.entries), ChannelCandidates(channels), BoneCount(old(table.entries))).0
    ensures |bones| == |channels|
    ensures forall i :: 0 <= i < |channels| ==>
      && fresh(bones[i])
      && bones[i].Copies(channels[i])
      && bones[i].name == channels[i].nodeName
      && channels[i].nodeName in table.entries
      && bones[i].id == table.entries[channels[i].nodeName].id
  {
    ghost var start := table.entries;
    var boneCount := CurrentBoneCount(table.entries);
    bones := [];
    var i := 0;
    while i < |channels|
      invariant i == |bones| && ReadSoFar(start, channels, bones, table.entries, boneCount)
      invariant forall b :: b in bones ==> fresh(b)
    {
      bones, boneCount := ReadStep(channels, table, start, bones, boneCount);
      i := i + 1;
    }
    ReadAll(start, channels, bones, table.entries, boneCount);
    forall k | 0 <= k < |channels| ensures fresh(bones[k]) {
      assert bones[k] in bones;
    }
  }

  /** findBone: the position of the first bone with the name, or none. */
  function FindBone(bones: seq<Bone>, name: string): (r: Option<nat>)
    ensures r.Some? ==> r.value < |bones| && bones[r.value].name == name
    ensures r.Some? ==> forall j :: 0 <= j < r.value ==> bones[j].name != name
    ensures r.None? <==> forall j :: 0 <= j < |bones| ==> bones[j].name != name
  {
    if bones == [] then None
    else if bones[0].name == name then Some(0)
    else
      match FindBone(bones[1..], name)
      case None => None
      case Some(j) => Some(j + 1)
  }

  /** Each channel has at least one key of each kind. */
  predicate Keyed(channel: Importer.NodeAnim) {
    1 <= |channel.positionKeys| && 1 <= |channel.rotationKeys| && 1 <= |channel.scalingKeys|
  }

  /** The scene readMissingBones and readHierarchyData get to: present, with
      a root node and at least one animation. */
  predicate Usable(scene: Option<Importer.Scene>) {
    scene.Some? && scene.value.root.Some? && 1 <= |scene.value.animations|
  }

  /** The clip rate: the file's ticks per second, or 25 when it gives 0. */
  function TicksPerSecond(fileRate: real): (r: real)
    ensures fileRate != 0.0 ==> r == fileRate
    ensures fileRate == 0.0 ==> r == 25.0
    ensures r != 0.0
  {
    if fileRate == 0.0 then 25.0 else fileRate
  }

  /** The root that a failed load leaves behind, as written: the
      constructor never assigns it, so its children count is whatever the
      memory held. */
  function DefaultRootAsWritten(transformation: Mat4, childrenCount: int): (n: NodeData)
    ensures n.name == "" && n.children == [] && n.childrenCount == childrenCount
  {
    NodeData(transformation, "", childrenCount, [])
  }

  /** Any non-zero leftover count makes the pose walk read past the end of
      the (empty) children vector. */
  lemma DefaultRootAsWrittenIllFormed(transformation: Mat4)
    ensures !WellFormed(DefaultRootAsWritten(transformation, 1))
    ensures DefaultRootAsWritten(transformation, 1).childrenCount > |DefaultRootAsWritten(transformation, 1).children|
  {
  }

  /** The corrected default root: no children, and a count that says so. */
  function DefaultRoot(transformation: Mat4): (n: NodeData)
    ensures WellFormed(n) && n.name == "" && n.children == []
  {
    NodeData(transformation, "", 0, [])
  }

  class Animation {
    const duration: real
    const ticksPerSecond: real
    const bones: seq<Bone>
    const rootNode: NodeData
    const boneInfoMap: map<string, BoneInfo>

    /** What the pose walk needs of a clip: a well-formed hierarchy, table
        ids that index the matrix array from 0, and keys on every track. */
    predicate Posable() {
      && WellFormed(rootNode)
      && IdsNonNegative(boneInfoMap)
      && forall i :: 0 <= i < |bones| ==> bones[i].Valid() && bones[i].HasKeys()
    }

    /** Loads the clip at `path` with `read`, extending the shared `table`.
        A missing scene, root or animation returns early with no bones and
        the table untouched; the early return leaves the clip's duration
        and rate unset, which is modelled as arbitrary values. */
    constructor (path: string, read: Importer.Reader, table: BoneTable)
      requires table.Valid()
      modifies table
      ensures table.Valid()
      ensures forall i :: 0 <= i < |bones| ==> fresh(bones[i])
      ensures !Usable(read(path)) ==>
        && bones == []
        && table.entries == old(table.entries)
        && boneInfoMap == old(table.entries)
        && rootNode == DefaultRoot(rootNode.transformation)
      ensures Usable(read(path)) ==>
        var anim := read(path).value.animations[0];
        && duration == anim.duration
        && ticksPerSecond == TicksPerSecond(anim.ticksPerSecond)
        && Mirrors(rootNode, read(path).value.root.value)
        && table.entries == Register(old(table.entries), ChannelCandidates(anim.channels),
                                     BoneCount(old(table.entries))).0
        && boneInfoMap == table.entries
        && |bones| == |anim.channels|
        && forall i :: 0 <= i < |anim.channels| ==>
          && bones[i].Copies(anim.channels[i])
          && bones[i].name == anim.channels[i].nodeName
          && anim.channels[i].nodeName in table.entries
          && bones[i].id == table.entries[anim.channels[i].nodeName].id
      ensures (Usable(read(path)) ==>
                 forall i :: 0 <= i < |read(path).value.animations[0].channels| ==>
                   Keyed(read(path).value.animations[0].channels[i]))
              ==> Posable()
    {
      var scene := read(path);
      if !Usable(scene) {
        var d: real :| true;
        var tps: real :| true;
        var t: Mat4 :| true;
        duration := d;
        ticksPerSecond := tps;
        bones := [];
        rootNode := DefaultRoot(t);
        boneInfoMap := table.entries;
      } else {
        var animation := scene.value.animations[0];
        duration := animation.duration;
        ticksPerSecond := TicksPerSecond(animation.ticksPerSecond);
        var root := ReadHierarchyData(scene.value.root.value);
        MirrorsWellFormed(root, scene.value.root.value);
        rootNode := root;
        ghost var before := table.entries;
        var bs := ReadMissingBones(animation.channels, table);
        RegisterKeepsIdsNonNegative(before, ChannelCandidates(animation.channels), BoneCount(before));
        bones := bs;
        boneInfoMap := table.entries;
      }
    }
  }
}
