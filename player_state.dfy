/** `player/src/player_state.rs`: the inventory and hotbar selection of one player. */
module PlayerStates {
  import opened ItemStacks

  /** Number of inventory slots (`slots: [ItemStack; 45]`). */
  const SLOT_COUNT: nat := 45
  /** `PLAYER_OFF_HAND_SLOT`. */
  const PLAYER_OFF_HAND_SLOT: nat := 45
  /** `PLAYER_HOTBAR_SLOTS = 36..=44`. */
  const HOTBAR_FIRST: nat := 36
  const HOTBAR_LAST: nat := 44

  predicate InHotbar(slot: nat)
  {
    HOTBAR_FIRST <= slot <= HOTBAR_LAST
  }

  /**
   * The off-hand slot id is one past the last index of the 45 slots: every
   * access `slots[PLAYER_OFF_HAND_SLOT]` is out of bounds, while each hotbar
   * slot is a valid index.
   */
  lemma OffHandSlotIsOutOfBounds(slot: nat)
    requires InHotbar(slot)
    ensures slot < SLOT_COUNT
    ensures !(PLAYER_OFF_HAND_SLOT < SLOT_COUNT)
  {
  }

  /** `PlayerState` (the look direction, a float vector, is not part of this model). */
  class PlayerState {
    /** 0 when the inventory window, or no window, is open. */
    var openedWindow: nat
    const slots: array<ItemStack>
    var selectedSlot: nat

    /** The slot array has 45 entries and the selection lies in the hotbar. */
    predicate Valid()
      reads this
    {
      slots.Length == SLOT_COUNT && InHotbar(selectedSlot)
    }

    /** `PlayerState::new`: no window, 45 empty slots, the first hotbar slot selected. */
    constructor ()
      ensures Valid() && fresh(slots)
      ensures openedWindow == 0 && selectedSlot == HOTBAR_FIRST
      ensures forall i :: 0 <= i < slots.Length ==> slots[i] == Empty
    {
      openedWindow := 0;
      slots := new ItemStack[SLOT_COUNT](_ => Default());
      selectedSlot := HOTBAR_FIRST;
    }

    /** `select_slot`: a slot outside 36..=44 fails the assertion. */
    method SelectSlot(slot: nat)
      requires Valid() && InHotbar(slot)
      modifies this
      ensures Valid()
      ensures selectedSlot == slot
      ensures openedWindow == old(openedWindow)
    {
      selectedSlot := slot;
    }
  }
}
