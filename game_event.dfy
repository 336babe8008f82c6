/**
 * `player/src/game_event.rs`: events scheduled for a game tick, ordered by
 * their tick alone; and the way the game loop (`player/src/game_loop.rs`)
 * drains them from a `BinaryHeap`.
 */
module GameEvents {
  import opened Voxels
  import opened Wrappers

  /** `Hand` of the protocol. */
  datatype Hand = MainHand | OffHand

  /** `BlockFace` of the protocol. */
  datatype BlockFace = Bottom | Top | North | South | West | East

  /** `PlayerPlaceBlockEvent` (the float cursor position and `inside_block` are not modelled). */
  datatype PlayerPlaceBlockEvent = PlayerPlaceBlockEvent(hand: Hand, location: Coordinate, face: BlockFace)

  /** `Event`. */
  datatype Event =
    | VoxelChange(coord: Coordinate, newVoxel: Voxel)
    | VoxelUpdate(coord: Coordinate)
    | EntityUpdate(entityId: nat)
    | PlayerPlaceBlock(placement: PlayerPlaceBlockEvent)

  /** `ScheduledEvent`: an event and the tick it is due at. */
  datatype ScheduledEvent = ScheduledEvent(tick: nat, event: Event)

  /** `std::cmp::Ordering`. */
  datatype Ordering = Less | Equal | Greater

  /** `Ord::cmp`: the order of the ticks, whatever the events. */
  function Cmp(a: ScheduledEvent, b: ScheduledEvent): (r: Ordering)
    ensures r == Less <==> a.tick < b.tick
    ensures r == Greater <==> a.tick > b.tick
  {
    if a.tick < b.tick then Less
    else if a.tick > b.tick then Greater
    else Equal
  }

  /** `PartialOrd::partial_cmp`: always defined. */
  function PartialCmp(a: ScheduledEvent, b: ScheduledEvent): Option<Ordering>
  {
    Some(Cmp(a, b))
  }

  /** `PartialEq::eq`: equal ticks, whatever the events. */
  function Eq(a: ScheduledEvent, b: ScheduledEvent): bool
  {
    a.tick == b.tick
  }

  /**
   * The order is a total order (antisymmetric, transitive, total) that is
   * consistent with `eq`, as `Ord` and `Eq` require; two events due at the
   * same tick compare equal even when the events differ.
   */
  lemma OrderIsTotalAndConsistentWithEq(a: ScheduledEvent, b: ScheduledEvent, c: ScheduledEvent)
    ensures PartialCmp(a, b) == Some(Cmp(a, b))
    ensures Cmp(a, b) == Equal <==> Eq(a, b)
    ensures Cmp(a, b) == Less <==> Cmp(b, a) == Greater
    ensures Cmp(a, b) != Greater && Cmp(b, c) != Greater ==> Cmp(a, c) != Greater
    ensures Eq(a, b) <==> Eq(b, a)
    ensures Eq(a, a.(event := c.event))
  {
  }

  // ---------------------------------------------------------------------
  // Draining the event queue

  /** A greatest element under `cmp`: what `BinaryHeap::peek` returns. */
  function LatestIndex(queue: seq<ScheduledEvent>): (i: nat)
    requires |queue| > 0
    ensures i < |queue|
    ensures forall j :: 0 <= j < |queue| ==> queue[j].tick <= queue[i].tick
  {
    if |queue| == 1 then 0
    else
      var k := LatestIndex(queue[1..]) + 1;
      if queue[0].tick >= queue[k].tick then 0 else k
  }

  /** A least element under `cmp`: what the top of a heap of `Reverse(event)` would be. */
  function EarliestIndex(queue: seq<ScheduledEvent>): (i: nat)
    requires |queue| > 0
    ensures i < |queue|
    ensures forall j :: 0 <= j < |queue| ==> queue[i].tick <= queue[j].tick
  {
    if |queue| == 1 then 0
    else
      var k := EarliestIndex(queue[1..]) + 1;
      if queue[0].tick <= queue[k].tick then 0 else k
  }

  function RemoveAt(queue: seq<ScheduledEvent>, i: nat): (r: seq<ScheduledEvent>)
    requires i < |queue|
    ensures |r| == |queue| - 1
    ensures multiset(r) + multiset{queue[i]} == multiset(queue)
  {
    assert queue == queue[..i] + [queue[i]] + queue[i + 1..];
    queue[..i] + queue[i + 1..]
  }

  /**
   * The loop at `game_loop.rs` lines 78-85 as written: peek the heap's top
   * (the LATEST tick), stop if it is not yet due, else pop and handle it.
   * Returns the events handled, in order, and the queue left behind.
   */
  function DrainAsWritten(queue: seq<ScheduledEvent>, currentTick: nat): (r: (seq<ScheduledEvent>, seq<ScheduledEvent>))
    ensures multiset(r.0) + multiset(r.1) == multiset(queue)
    ensures forall e :: e in r.0 ==> e.tick <= currentTick
    decreases |queue|
  {
    if |queue| == 0 then ([], [])
    else
      var i := LatestIndex(queue);
      if queue[i].tick > currentTick then ([], queue)
      else
        var rest := DrainAsWritten(RemoveAt(queue, i), currentTick);
        ([queue[i]] + rest.0, rest.1)
  }

  /**
   * As written, one event due later than the current tick hides every due
   * event: with events at ticks 1 and 5 and current tick 1, nothing is
   * handled although the tick-1 event is due.
   */
  lemma DrainAsWrittenSkipsDueEvents()
    ensures var due := ScheduledEvent(1, EntityUpdate(0));
            var later := ScheduledEvent(5, EntityUpdate(0));
            DrainAsWritten([due, later], 1) == ([], [due, later])
  {
    var due := ScheduledEvent(1, EntityUpdate(0));
    var later := ScheduledEvent(5, EntityUpdate(0));
    assert LatestIndex([due, later]) == 1;
  }

  /**
   * The loop as it is meant to work, with the heap ordered earliest first:
   * every due event is handled, in tick order, and only events of later
   * ticks remain.
   */
  function DrainEarliestFirst(queue: seq<ScheduledEvent>, currentTick: nat): (r: (seq<ScheduledEvent>, seq<ScheduledEvent>))
    ensures multiset(r.0) + multiset(r.1) == multiset(queue)
    ensures forall e :: e in r.0 ==> e.tick <= currentTick
    ensures forall e :: e in r.1 ==> e.tick > currentTick
    ensures forall i, j :: 0 <= i < j < |r.0| ==> r.0[i].tick <= r.0[j].tick
    decreases |queue|
  {
    if |queue| == 0 then ([], [])
    else
      var i := EarliestIndex(queue);
      if queue[i].tick > currentTick then ([], queue)
      else
        var smaller := RemoveAt(queue, i);
        var rest := DrainEarliestFirst(smaller, currentTick);
        DrainStep(queue, i, smaller, rest.0, rest.1, currentTick);
        ([queue[i]] + rest.0, rest.1)
  }

  /**
   * Handling the earliest event first, then draining the rest of the
   * queue, keeps every event once and the handled ones in tick order.
   */
  lemma DrainStep(queue: seq<ScheduledEvent>, i: nat, smaller: seq<ScheduledEvent>,
                  handled: seq<ScheduledEvent>, remaining: seq<ScheduledEvent>, currentTick: nat)
    requires i < |queue| && queue[i].tick <= currentTick
    requires forall j :: 0 <= j < |queue| ==> queue[i].tick <= queue[j].tick
    requires multiset(smaller) + multiset{queue[i]} == multiset(queue)
    requires multiset(handled) + multiset(remaining) == multiset(smaller)
    requires forall e :: e in handled ==> e.tick <= currentTick
    requires forall j, k :: 0 <= j < k < |handled| ==> handled[j].tick <= handled[k].tick
    ensures multiset([queue[i]] + handled) + multiset(remaining) == multiset(queue)
    ensures forall e :: e in [queue[i]] + handled ==> e.tick <= currentTick
    ensures forall j, k :: 0 <= j < k < |[queue[i]] + handled| ==>
              ([queue[i]] + handled)[j].tick <= ([queue[i]] + handled)[k].tick
  {
    var all := [queue[i]] + handled;
    forall j, k | 0 <= j < k < |all|
      ensures all[j].tick <= all[k].tick
    {
      if j == 0 {
        var e := handled[k - 1];
        assert e in multiset(handled);
        assert e in multiset(queue);
      } else {
        assert all[j] == handled[j - 1] && all[k] == handled[k - 1];
      }
    }
  }
}
