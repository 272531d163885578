/** The entities the systems walk over and the components they touch.
    A world is the sequence of its entities, in the order the systems
    visit them; each entity owns its components. */
module Ecs {
  import opened LinAlg
  import opened Wrappers
  import opened MeshUtils
  import opened AnimatorComp
  import opened Attachment

  /** Transform: position, Euler rotation in radians, scale. */
  datatype Transform = Transform(position: Vec3, rotation: Vec3, scale: Vec3)

  /** MeshRendererComponent: the parts the systems change. */
  class MeshRenderer {
    var mesh: Option<Mesh>
    var enabled: bool

    constructor (mesh: Option<Mesh>)
      ensures this.mesh == mesh && enabled
    {
      this.mesh := mesh;
      enabled := true;
    }
  }

  /** InventoryComponent: the entity names of each weapon slot, and the
      selected slot. */
  class Inventory {
    var slots: seq<seq<string>>
    var activeSlot: int

    constructor (slots: seq<seq<string>>, activeSlot: int)
      ensures this.slots == slots && this.activeSlot == activeSlot
    {
      this.slots := slots;
      this.activeSlot := activeSlot;
    }
  }

  class Entity {
    const name: string
    var localTransform: Transform
    const parent: Entity?
    const animator: AnimatorComponent?
    const meshRenderer: MeshRenderer?
    const inventory: Inventory?
    const attachment: BoneAttachment?

    constructor (name: string, localTransform: Transform, parent: Entity?, animator: AnimatorComponent?,
                 meshRenderer: MeshRenderer?, inventory: Inventory?, attachment: BoneAttachment?)
      ensures this.name == name && this.localTransform == localTransform && this.parent == parent
      ensures this.animator == animator && this.meshRenderer == meshRenderer
      ensures this.inventory == inventory && this.attachment == attachment
    {
      this.name := name;
      this.localTransform := localTransform;
      this.parent := parent;
      this.animator := animator;
      this.meshRenderer := meshRenderer;
      this.inventory := inventory;
      this.attachment := attachment;
    }
  }

  /** Distinct entities own distinct components. */
  predicate Owned(world: seq<Entity>) {
    && (forall i, j :: 0 <= i < j < |world| ==> world[i] != world[j])
    && (forall i, j :: 0 <= i < j < |world| && world[i].meshRenderer != null ==>
          world[i].meshRenderer != world[j].meshRenderer)
    && (forall i, j :: 0 <= i < j < |world| && world[i].inventory != null ==>
          world[i].inventory != world[j].inventory)
    && (forall i, j :: 0 <= i < j < |world| && world[i].attachment != null ==>
          world[i].attachment != world[j].attachment)
  }

  /** Every animator is in a consistent state, and no two entities', nor
      any mesh renderer, share an object with another's. */
  ghost predicate AnimatorsValid(world: seq<Entity>)
    reads set i | 0 <= i < |world| && world[i].animator != null :: world[i].animator
    reads set i, o | 0 <= i < |world| && world[i].animator != null && o in world[i].animator.Repr :: o
  {
    && (forall i :: 0 <= i < |world| && world[i].animator != null ==> world[i].animator.Valid())
    && (forall i, j ::
          0 <= i < |world| && 0 <= j < |world| && i != j && world[i].animator != null && world[j].animator != null
          ==> world[i].animator.Repr !! world[j].animator.Repr)
    && (forall i, j ::
          0 <= i < |world| && 0 <= j < |world| && world[i].animator != null && world[j].meshRenderer != null
          ==> world[j].meshRenderer !in world[i].animator.Repr)
  }
}
