/** InventoryControllerSystem: every frame, each entity with an inventory
    picks its active weapon slot from the number keys and the mouse wheel,
    hides every weapon listed in any slot and shows the weapons of the
    active slot.  Weapons are entities found by name. */
module InventorySys {
  import opened Wrappers
  import opened Ecs

  /** The number of weapon slots the keys and the wheel select among. */
  const SlotCount: int := 5

  /** C++ `x % 5` on `int`: the remainder of division truncated toward
      zero, so it takes the sign of the dividend, unlike Dafny's `%`. */
  function CRem(a: int): (r: int)
    ensures -SlotCount < r < SlotCount
    ensures a >= 0 ==> r == a % SlotCount
    ensures a < 0 ==> r == if a % SlotCount == 0 then 0 else a % SlotCount - SlotCount
  {
    if a >= 0 then a % SlotCount
    else
      CRemNegative(a);
      -((-a) % SlotCount)
  }

  /** For a negative dividend, the truncated remainder is the Euclidean
      one shifted down by the divisor, except when both are zero. */
  lemma CRemNegative(a: int)
    requires a < 0
    ensures -SlotCount < -((-a) % SlotCount) <= 0
    ensures -((-a) % SlotCount) == if a % SlotCount == 0 then 0 else a % SlotCount - SlotCount
  {
    var q, m := (-a) / SlotCount, (-a) % SlotCount;
    assert -a == SlotCount * q + m && 0 <= m < SlotCount;
    if m == 0 {
      assert a == SlotCount * (-q);
    } else {
      assert a == SlotCount * (-q - 1) + (SlotCount - m);
    }
  }

  /** This frame's input: the keys just pressed (the digit of each number
      key) and the vertical wheel offset. */
  datatype Input = Input(pressed: set<int>, scroll: real)

  /** The slot after the number keys: keys 1 to 5 select slots 0 to 4 and,
      when several are pressed, the highest wins; with none the slot stays. */
  function KeySlot(prev: int, pressed: set<int>): (s: int)
    ensures (forall key :: 1 <= key <= SlotCount ==> key !in pressed) ==> s == prev
    ensures (exists key :: 1 <= key <= SlotCount && key in pressed) ==>
      && 0 <= s < SlotCount && s + 1 in pressed
      && forall key :: 1 <= key <= SlotCount && key in pressed ==> key <= s + 1
  {
    if 5 in pressed then 4
    else if 4 in pressed then 3
    else if 3 in pressed then 2
    else if 2 in pressed then 1
    else if 1 in pressed then 0
    else prev
  }

  /** The slot after the wheel: up cycles forward, down cycles back, both
      with C++ `%`. */
  function Scrolled(s: int, scroll: real): int {
    if scroll > 0.0 then CRem(s + 1)
    else if scroll < 0.0 then CRem(s - 1 + SlotCount)
    else s
  }

  /** The final clamp into [0, 4]. */
  function Clamp(s: int): (r: int)
    ensures 0 <= r < SlotCount
    ensures 0 <= s < SlotCount ==> r == s
    ensures s < 0 ==> r == 0
    ensures s >= SlotCount ==> r == SlotCount - 1
  {
    if s >= SlotCount then SlotCount - 1
    else if s < 0 then 0
    else s
  }

  /** The slot the frame selects. */
  function SelectSlot(prev: int, input: Input): (s: int)
    ensures 0 <= s < SlotCount
  {
    Clamp(Scrolled(KeySlot(prev, input.pressed), input.scroll))
  }

  /** From a slot in range the wheel cycles through the five slots, up to
      the next and down to the previous, wrapping at both ends. */
  lemma WheelCycles(s: int, input: Input)
    requires 0 <= s < SlotCount
    ensures input.scroll > 0.0 ==> Scrolled(s, input.scroll) == (s + 1) % SlotCount
    ensures input.scroll < 0.0 ==> Scrolled(s, input.scroll) == (s + SlotCount - 1) % SlotCount
    ensures input.scroll == 0.0 ==> Scrolled(s, input.scroll) == s
  {
  }

  /** With no key pressed, a slot below -1 scrolled in either direction
      keeps a negative C++ remainder, so it is the clamp that brings it to
      slot 0. */
  lemma NegativeSlotClamps(prev: int, input: Input)
    requires prev < -SlotCount
    requires forall key :: 1 <= key <= SlotCount ==> key !in input.pressed
    ensures input.scroll != 0.0 ==> Scrolled(prev, input.scroll) <= 0
    ensures SelectSlot(prev, input) == 0
  {
  }

  /** The entities' names, in world order. */
  function Names(world: seq<Entity>): (names: seq<string>)
    ensures |names| == |world| && forall i :: 0 <= i < |world| ==> names[i] == world[i].name
  {
    seq(|world|, i requires 0 <= i < |world| => world[i].name)
  }

  /** The first entity with the given name, as the `break` finds it. */
  function First(names: seq<string>, name: string): (r: Option<nat>)
    ensures r.None? <==> name !in names
    ensures r.Some? ==>
      && r.value < |names| && names[r.value] == name
      && forall j :: 0 <= j < r.value ==> names[j] != name
  {
    if |names| == 0 then None
    else if names[0] == name then Some(0)
    else match First(names[1..], name)
      case None => None
      case Some(j) => Some(j + 1)
  }

  /** An entity is the one its name finds. */
  predicate IsFirst(names: seq<string>, i: nat)
    requires i < |names|
  {
    First(names, names[i]) == Some(i)
  }

  /** Some slot lists the name. */
  predicate Listed(slots: seq<seq<string>>, name: string) {
    exists s :: 0 <= s < |slots| && name in slots[s]
  }

  /** The active slot exists and lists the name. */
  predicate ShowsIn(slots: seq<seq<string>>, active: int, name: string) {
    0 <= active < |slots| && name in slots[active]
  }

  /** The renderers of the world's entities. */
  function Renderers(world: seq<Entity>): set<object> {
    set i | 0 <= i < |world| && world[i].meshRenderer != null :: world[i].meshRenderer
  }

  /** The first entity named `name`, if it has a renderer, gets `value`;
      every other renderer keeps its flag. */
  method SetFlag(world: seq<Entity>, name: string, value: bool)
    requires Owned(world)
    modifies Renderers(world)
    ensures forall i :: 0 <= i < |world| && world[i].meshRenderer != null ==>
      world[i].meshRenderer.enabled ==
        if First(Names(world), name) == Some(i) then value else old(world[i].meshRenderer.enabled)
  {
    ghost var names := Names(world);
    var j := 0;
    while j < |world|
      invariant 0 <= j <= |world|
      invariant forall i :: 0 <= i < j ==> names[i] != name
      invariant forall i :: 0 <= i < |world| && world[i].meshRenderer != null ==>
        unchanged(world[i].meshRenderer)
    {
      if world[j].name == name {
        var meshRenderer := world[j].meshRenderer;
        if meshRenderer != null {
          meshRenderer.enabled := value;
        }
        assert First(names, name) == Some(j);
        return;
      }
      j := j + 1;
    }
    assert name !in names;
  }

  /** Whether a slot prefix, the last slot cut after `j` names, lists the
      name. */
  predicate ListedBefore(slots: seq<seq<string>>, s: nat, j: nat, name: string)
    requires s < |slots| && j <= |slots[s]|
  {
    Listed(slots[..s], name) || name in slots[s][..j]
  }

  /** The first pass: every weapon of every slot, found by its name, is
      hidden; renderers of entities no slot finds keep their flags. */
  method HideAll(world: seq<Entity>, slots: seq<seq<string>>)
    requires Owned(world)
    modifies Renderers(world)
    ensures forall i :: 0 <= i < |world| && world[i].meshRenderer != null ==>
      world[i].meshRenderer.enabled ==
        if IsFirst(Names(world), i) && Listed(slots, world[i].name) then false
        else old(world[i].meshRenderer.enabled)
  {
    ghost var names := Names(world);
    for s := 0 to |slots|
      invariant forall i :: 0 <= i < |world| && world[i].meshRenderer != null ==>
        world[i].meshRenderer.enabled ==
          if IsFirst(names, i) && Listed(slots[..s], names[i]) then false
          else old(world[i].meshRenderer.enabled)
    {
      for j := 0 to |slots[s]|
        invariant forall i :: 0 <= i < |world| && world[i].meshRenderer != null ==>
          world[i].meshRenderer.enabled ==
            if IsFirst(names, i) && ListedBefore(slots, s, j, names[i]) then false
            else old(world[i].meshRenderer.enabled)
      {
        SetFlag(world, slots[s][j], false);
        forall i | 0 <= i < |world| && IsFirst(names, i)
          ensures ListedBefore(slots, s, j + 1, names[i]) <==>
            ListedBefore(slots, s, j, names[i]) || First(names, slots[s][j]) == Some(i)
        {
          assert slots[s][..j + 1] == slots[s][..j] + [slots[s][j]];
        }
      }
      forall i | 0 <= i < |world|
        ensures ListedBefore(slots, s, |slots[s]|, names[i]) <==> Listed(slots[..s + 1], names[i])
      {
        ListedNext(slots, s, names[i]);
      }
    }
    assert slots[..|slots|] == slots;
  }

  /** One more slot of the prefix. */
  lemma ListedNext(slots: seq<seq<string>>, s: nat, name: string)
    requires s < |slots|
    ensures ListedBefore(slots, s, |slots[s]|, name) <==> Listed(slots[..s + 1], name)
  {
    assert slots[s][..|slots[s]|] == slots[s];
    if Listed(slots[..s + 1], name) {
      var t :| 0 <= t < s + 1 && name in slots[..s + 1][t];
      if t < s {
        assert name in slots[..s][t];
      }
    }
    if Listed(slots[..s], name) {
      var t :| 0 <= t < s && name in slots[..s][t];
      assert name in slots[..s + 1][t];
    }
    if name in slots[s] {
      assert name in slots[..s + 1][s];
    }
  }

  /** The second pass: when the active slot exists, each of its weapons,
      found by name, is shown; every other renderer keeps its flag. */
  method ShowSlot(world: seq<Entity>, slots: seq<seq<string>>, active: int)
    requires Owned(world)
    modifies Renderers(world)
    ensures forall i :: 0 <= i < |world| && world[i].meshRenderer != null ==>
      world[i].meshRenderer.enabled ==
        if IsFirst(Names(world), i) && ShowsIn(slots, active, world[i].name) then true
        else old(world[i].meshRenderer.enabled)
  {
    ghost var names := Names(world);
    if 0 <= active < |slots| {
      var weapons := slots[active];
      for j := 0 to |weapons|
        invariant forall i :: 0 <= i < |world| && world[i].meshRenderer != null ==>
          world[i].meshRenderer.enabled ==
            if IsFirst(names, i) && names[i] in weapons[..j] then true
            else old(world[i].meshRenderer.enabled)
      {
        SetFlag(world, weapons[j], true);
        assert weapons[..j + 1] == weapons[..j] + [weapons[j]];
      }
      assert weapons[..|weapons|] == weapons;
    }
  }

  /** A weapon of the active slot is listed in some slot. */
  lemma ShownIsListed(slots: seq<seq<string>>, active: int, name: string)
    requires ShowsIn(slots, active, name)
    ensures Listed(slots, name)
  {
    assert 0 <= active < |slots| && name in slots[active];
  }

  /** One inventory's visibility passes on one entity's renderer flag: a
      weapon some slot lists ends shown exactly when the active slot lists
      it; an entity no slot finds keeps its flag. */
  function Visibility(names: seq<string>, slots: seq<seq<string>>, active: int, i: nat, flag: bool): (r: bool)
    requires i < |names|
    ensures IsFirst(names, i) && ShowsIn(slots, active, names[i]) ==> r
    ensures !(IsFirst(names, i) && Listed(slots, names[i])) ==> r == flag
  {
    if IsFirst(names, i) && Listed(slots, names[i]) then ShowsIn(slots, active, names[i]) else flag
  }

  /** Hiding every listed weapon and then showing the active slot's ones
      leaves each flag as `Visibility` says. */
  lemma HideThenShow(names: seq<string>, slots: seq<seq<string>>, active: int, i: nat, flag: bool)
    requires i < |names|
    ensures (if IsFirst(names, i) && ShowsIn(slots, active, names[i]) then true
             else if IsFirst(names, i) && Listed(slots, names[i]) then false
             else flag) == Visibility(names, slots, active, i, flag)
  {
    if IsFirst(names, i) && ShowsIn(slots, active, names[i]) {
      ShownIsListed(slots, active, names[i]);
    }
  }

  /** The slot selection, step by step on the component. */
  method SelectActiveSlot(inventory: Inventory, input: Input)
    modifies inventory
    ensures inventory.activeSlot == SelectSlot(old(inventory.activeSlot), input)
    ensures inventory.slots == old(inventory.slots)
  {
    if 1 in input.pressed { inventory.activeSlot := 0; }
    if 2 in input.pressed { inventory.activeSlot := 1; }
    if 3 in input.pressed { inventory.activeSlot := 2; }
    if 4 in input.pressed { inventory.activeSlot := 3; }
    if 5 in input.pressed { inventory.activeSlot := 4; }
    if input.scroll > 0.0 {
      inventory.activeSlot := CRem(inventory.activeSlot + 1);
    } else if input.scroll < 0.0 {
      inventory.activeSlot := CRem(inventory.activeSlot - 1 + SlotCount);
    }
    if inventory.activeSlot >= SlotCount { inventory.activeSlot := SlotCount - 1; }
    if inventory.activeSlot < 0 { inventory.activeSlot := 0; }
  }

  /** The loop body for an entity with an inventory. */
  method UpdateInventory(inventory: Inventory, world: seq<Entity>, input: Input)
    requires Owned(world)
    modifies inventory, Renderers(world)
    ensures inventory.activeSlot == SelectSlot(old(inventory.activeSlot), input)
    ensures inventory.slots == old(inventory.slots)
    ensures forall i :: 0 <= i < |world| && world[i].meshRenderer != null ==>
      world[i].meshRenderer.enabled ==
        Visibility(Names(world), inventory.slots, inventory.activeSlot, i, old(world[i].meshRenderer.enabled))
  {
    SelectActiveSlot(inventory, input);
    HideAll(world, inventory.slots);
    ShowSlot(world, inventory.slots, inventory.activeSlot);
    forall i | 0 <= i < |world| && world[i].meshRenderer != null
      ensures world[i].meshRenderer.enabled ==
        Visibility(Names(world), inventory.slots, inventory.activeSlot, i, old(world[i].meshRenderer.enabled))
    {
      HideThenShow(Names(world), inventory.slots, inventory.activeSlot, i, old(world[i].meshRenderer.enabled));
    }
  }

  /** The inventories of a world prefix, in order, each with its slots and
      the slot this frame selects for it. */
  ghost function Passes(world: seq<Entity>, input: Input): seq<(seq<seq<string>>, int)>
    reads set i | 0 <= i < |world| && world[i].inventory != null :: world[i].inventory
  {
    if world == [] then []
    else
      var last := world[|world| - 1];
      Passes(world[..|world| - 1], input) +
      (if last.inventory != null then [(last.inventory.slots, SelectSlot(last.inventory.activeSlot, input))] else [])
  }

  /** A renderer flag after the visibility passes of the inventories in
      order: a later inventory overrides an earlier one on the weapons it
      lists. */
  function AfterPasses(names: seq<string>, passes: seq<(seq<seq<string>>, int)>, i: nat, flag: bool): bool
    requires i < |names|
  {
    if passes == [] then flag
    else
      var last := passes[|passes| - 1];
      Visibility(names, last.0, last.1, i, AfterPasses(names, passes[..|passes| - 1], i, flag))
  }

  /** An entity that no inventory's slots find keeps its flag, whatever the
      order of the inventories. */
  lemma {:induction false} AfterPassesUnlisted(names: seq<string>, passes: seq<(seq<seq<string>>, int)>, i: nat, flag: bool)
    requires i < |names|
    requires forall p :: 0 <= p < |passes| ==> !Listed(passes[p].0, names[i])
    ensures AfterPasses(names, passes, i, flag) == flag
  {
    if passes != [] {
      AfterPassesUnlisted(names, passes[..|passes| - 1], i, flag);
    }
  }

  /** The objects the system may change. */
  function Inventories(world: seq<Entity>): set<object> {
    set i | 0 <= i < |world| && world[i].inventory != null :: world[i].inventory
  }

  class InventoryControllerSystem {
    constructor ()
    {
    }

    /** update: each entity with an inventory in turn; `deltaTime` is not
        used.  Pressed keys and the wheel offset are the `input`. */
    method Update(world: seq<Entity>, deltaTime: real, input: Input)
      requires Owned(world)
      modifies Inventories(world), Renderers(world)
      ensures forall i :: 0 <= i < |world| && world[i].inventory != null ==>
        && world[i].inventory.activeSlot == SelectSlot(old(world[i].inventory.activeSlot), input)
        && world[i].inventory.slots == old(world[i].inventory.slots)
      ensures forall i :: 0 <= i < |world| && world[i].meshRenderer != null ==>
        world[i].meshRenderer.enabled ==
          AfterPasses(Names(world), old(Passes(world, input)), i, old(world[i].meshRenderer.enabled))
    {
      ghost var names := Names(world);
      for k := 0 to |world|
        invariant forall i :: 0 <= i < k && world[i].inventory != null ==>
          && world[i].inventory.activeSlot == SelectSlot(old(world[i].inventory.activeSlot), input)
          && world[i].inventory.slots == old(world[i].inventory.slots)
        invariant forall i :: k <= i < |world| && world[i].inventory != null ==> unchanged(world[i].inventory)
        invariant forall i :: 0 <= i < |world| && world[i].meshRenderer != null ==>
          world[i].meshRenderer.enabled ==
            AfterPasses(names, old(Passes(world[..k], input)), i, old(world[i].meshRenderer.enabled))
      {
        assert world[..k + 1][..k] == world[..k];
        ghost var before := old(Passes(world[..k], input));
        var inventory := world[k].inventory;
        if inventory != null {
          ghost var pass := (inventory.slots, SelectSlot(inventory.activeSlot, input));
          assert old(Passes(world[..k + 1], input)) == before + [pass];
          assert (before + [pass])[..|before|] == before;
          UpdateInventory(inventory, world, input);
        } else {
          assert old(Passes(world[..k + 1], input)) == before;
        }
      }
      assert world[..|world|] == world;
    }
  }
}
