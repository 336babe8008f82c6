/**
 * `player/src/player_handler.rs`: turning a block-place request into a
 * scheduled voxel change.  The item-click registry is outside the model:
 * its answer for the placed item and target block is an input.
 */
module PlayerHandling {
  import opened Voxels
  import opened Wrappers
  import opened ItemStacks
  import opened PlayerStates
  import opened GameEvents

  /**
   * `ItemClickEvent` as far as the handler looks at it.  For a placement,
   * `newVoxel` is `Voxel::from_block` of the registry's block.
   */
  datatype ItemClickEvent =
    | Nothing
    | Something
    | BlockPlacement(newVoxel: Voxel, replace: bool)
    | Eat
    | EntitySpawn
    | EntityThrow

  /** `block_face_to_difference`: the step from a block to its neighbour across `face`. */
  function BlockFaceToDifference(face: BlockFace): (d: Coordinate)
    ensures face == Top || face == Bottom <==> d.y != 0
    ensures face == South || face == North <==> d.z != 0
    ensures face == East || face == West <==> d.x != 0
  {
    match face
    case Bottom => Coordinate(0, -1, 0)
    case Top => Coordinate(0, 1, 0)
    case North => Coordinate(0, 0, -1)
    case South => Coordinate(0, 0, 1)
    case West => Coordinate(-1, 0, 0)
    case East => Coordinate(1, 0, 0)
  }

  function OppositeFace(face: BlockFace): BlockFace
  {
    match face
    case Bottom => Top
    case Top => Bottom
    case North => South
    case South => North
    case West => East
    case East => West
  }

  /** A unit step along one axis. */
  predicate IsUnitStep(d: Coordinate)
  {
    (d.x == 0 && d.y == 0 && (d.z == 1 || d.z == -1))
    || (d.x == 0 && d.z == 0 && (d.y == 1 || d.y == -1))
    || (d.y == 0 && d.z == 0 && (d.x == 1 || d.x == -1))
  }

  /**
   * Every face gives a unit step; Top, South and East point along +y, +z,
   * +x; opposite faces give negated steps; different faces give different steps.
   */
  lemma FaceDifferencesAreDistinctUnitSteps(face: BlockFace, other: BlockFace)
    ensures IsUnitStep(BlockFaceToDifference(face))
    ensures BlockFaceToDifference(Top).y == 1 && BlockFaceToDifference(South).z == 1 && BlockFaceToDifference(East).x == 1
    ensures BlockFaceToDifference(OppositeFace(face)) == BlockFaceToDifference(face).Neg()
    ensures face != other ==> BlockFaceToDifference(face) != BlockFaceToDifference(other)
  {
  }

  /** Where a placement puts the new voxel. */
  function PlacementTarget(command: PlayerPlaceBlockEvent, replace: bool): Coordinate
  {
    if replace then command.location else command.location.Add(BlockFaceToDifference(command.face))
  }

  /**
   * `handle_block_place_event`: take one item from the hand's slot; an
   * empty slot ends with `None`.  Otherwise a `BlockPlacement` answer becomes a
   * `VoxelChange` at the clicked location (replace) or at its neighbour across
   * the clicked face; the other answers give `None`.  Three paths panic: the
   * off hand indexes slot 45 of 45 (`OffHandSlotIsOutOfBounds`), `take`
   * asserts on a simple stack of count 0, and `ItemClickEvent::Something`
   * reaches `todo!()` after the item was taken.
   */
  method HandleBlockPlaceEvent(command: PlayerPlaceBlockEvent, player: PlayerState, clickEvent: ItemClickEvent)
    returns (outcome: Outcome, r: Option<Event>)
    requires player.Valid()
    modifies player.slots
    ensures var slot := old(player.slots[player.selectedSlot]);
            outcome == Panic <==>
              command.hand == OffHand || !CanTakeOne(slot) || (!slot.Empty? && clickEvent == Something)
    ensures command.hand == OffHand || !CanTakeOne(old(player.slots[player.selectedSlot])) ==>
              player.slots[..] == old(player.slots[..])
    ensures command.hand == MainHand && CanTakeOne(old(player.slots[player.selectedSlot])) ==>
              player.slots[..] == old(player.slots[..])[player.selectedSlot := SplitOffOne(old(player.slots[player.selectedSlot])).1]
    ensures outcome == Done && old(player.slots[player.selectedSlot]).Empty? ==> r.None?
    ensures outcome == Done && !old(player.slots[player.selectedSlot]).Empty? && clickEvent.BlockPlacement? ==>
              r == Some(VoxelChange(PlacementTarget(command, clickEvent.replace), clickEvent.newVoxel))
    ensures !clickEvent.BlockPlacement? ==> r.None?
  {
    var slotIdx := match command.hand
      case MainHand => player.selectedSlot
      case OffHand => PLAYER_OFF_HAND_SLOT;
    if slotIdx >= player.slots.Length {
      // `player.slots[slot_idx]` indexes past the 45 slots
      return Panic, None;
    }
    if !CanTakeOne(player.slots[slotIdx]) {
      // `take` asserts that the count is at least 1
      return Panic, None;
    }
    var taken, rest := TakeOne(player.slots[slotIdx]);
    player.slots[slotIdx] := rest;
    if taken.Empty? {
      return Done, None;
    }
    outcome := Done;
    match clickEvent {
      case Something =>
        // `todo!()`
        outcome, r := Panic, None;
      case BlockPlacement(newVoxel, replace) =>
        if replace {
          r := Some(VoxelChange(command.location, newVoxel));
        } else {
          var newPosition := command.location.Add(BlockFaceToDifference(command.face));
          r := Some(VoxelChange(newPosition, newVoxel));
        }
      case _ =>
        r := None;
    }
  }
}
