/**
 * `player/src/item_stack.rs`: the contents of one inventory slot.  The
 * `&mut self` operations take the old stack and return the new one beside
 * their result, the way the callers write it back into the slot.
 */
module ItemStacks {
  import Voxels
  import opened Wrappers

  /** A Rust `u16`. */
  type U16 = x: int | 0 <= x < 0x1_0000

  /** `SimpleItemStack`: `count` items of one kind. */
  datatype SimpleItemStack = SimpleItemStack(id: U16, count: U16)

  /** `NbtItem`: a single item carrying NBT data. */
  datatype NbtItemStack = NbtItemStack(id: U16, nbt: Voxels.NbtTag)

  /** `ItemStack`. */
  datatype ItemStack = Empty | Simple(stack: SimpleItemStack) | NbtItem(item: NbtItemStack)

  /** How many items a stack holds: an NBT item is always one. */
  function Total(stack: ItemStack): nat
  {
    match stack
    case Empty => 0
    case Simple(s) => s.count
    case NbtItem(_) => 1
  }

  /** `take_one` does not panic: `take(1)` asserts a simple stack holds at least one item. */
  predicate CanTakeOne(stack: ItemStack)
  {
    !(stack.Simple? && stack.stack.count == 0)
  }

  /**
   * The pair (taken, left behind) of `take_one`: an empty stack yields an
   * empty stack; a single simple item or an NBT item moves out whole; a
   * larger simple stack gives one item of the same id.
   */
  function SplitOffOne(stack: ItemStack): (r: (ItemStack, ItemStack))
    requires CanTakeOne(stack)
    ensures Total(r.0) + Total(r.1) == Total(stack)
    ensures Total(r.0) <= 1
    ensures r.0.Empty? <==> stack.Empty?
    ensures stack.NbtItem? ==> r.0 == stack && r.1 == Empty
  {
    match stack
    case Empty => (Empty, Empty)
    case Simple(s) =>
      if s.count == 1 then (stack, Empty)
      else (Simple(SimpleItemStack(s.id, 1)), Simple(SimpleItemStack(s.id, s.count - 1)))
    case NbtItem(_) => (stack, Empty)
  }

  /** Taking one item keeps the kind of item: whatever is taken or left has the stack's id. */
  lemma SplitOffOneKeepsId(stack: ItemStack)
    requires CanTakeOne(stack) && stack.Simple?
    ensures SplitOffOne(stack).0 == Simple(SimpleItemStack(stack.stack.id, 1))
    ensures stack.stack.count == 1 <==> SplitOffOne(stack).1.Empty?
    ensures SplitOffOne(stack).1.Simple? ==> SplitOffOne(stack).1.stack.id == stack.stack.id
  {
  }

  /** `take_one`: split one item off the stack. */
  method TakeOne(self: ItemStack) returns (taken: ItemStack, newSelf: ItemStack)
    requires CanTakeOne(self)
    ensures (taken, newSelf) == SplitOffOne(self)
  {
    match self {
      case Empty =>
        taken, newSelf := Empty, Empty;
      case Simple(s) =>
        if s.count == 1 {
          taken, newSelf := self, Empty;
        } else {
          var rest, one := Take(s, 1);
          taken, newSelf := Simple(one), Simple(rest);
        }
      case NbtItem(_) =>
        taken, newSelf := self, Empty;
    }
  }

  /** `remove_one`: `take_one` with the taken item dropped. */
  method RemoveOne(self: ItemStack) returns (newSelf: ItemStack)
    requires CanTakeOne(self)
    ensures newSelf == SplitOffOne(self).1
    ensures Total(newSelf) == Total(self) - (if self.Empty? then 0 else 1)
  {
    var _, rest := TakeOne(self);
    newSelf := rest;
  }

  /** `is_empty`: only the `Empty` variant, not a simple stack whose count reached 0. */
  function IsEmpty(stack: ItemStack): (r: bool)
    ensures r ==> Total(stack) == 0
    ensures r <==> stack.Empty?
  {
    stack.Empty?
  }

  /** A simple stack of count 0 holds nothing yet is not `is_empty`. */
  lemma ZeroCountStackIsNotEmpty(id: U16)
    ensures Total(Simple(SimpleItemStack(id, 0))) == 0
    ensures !IsEmpty(Simple(SimpleItemStack(id, 0)))
  {
  }

  /** `Default::default`. */
  function Default(): (r: ItemStack)
    ensures IsEmpty(r) && Total(r) == 0
  {
    Empty
  }

  /** `SimpleItemStack::take`: split `amountTaken` items off; more than the count panics. */
  method Take(self: SimpleItemStack, amountTaken: nat) returns (newSelf: SimpleItemStack, taken: SimpleItemStack)
    requires amountTaken <= self.count
    ensures newSelf.id == self.id && taken.id == self.id
    ensures taken.count == amountTaken
    ensures newSelf.count + taken.count == self.count
  {
    var count := amountTaken;
    newSelf := self.(count := self.count - count);
    taken := SimpleItemStack(self.id, count);
  }

  /** `SimpleItemStack::try_take`: `None` and no change when too many items are asked for. */
  method TryTake(self: SimpleItemStack, amountTaken: nat) returns (newSelf: SimpleItemStack, taken: Option<SimpleItemStack>)
    ensures amountTaken > self.count <==> taken.None?
    ensures taken.None? ==> newSelf == self
    ensures taken.Some? ==> taken.value == SimpleItemStack(self.id, amountTaken)
                            && newSelf == SimpleItemStack(self.id, self.count - amountTaken)
  {
    if amountTaken > self.count {
      newSelf, taken := self, None;
    } else {
      var t;
      newSelf, t := Take(self, amountTaken);
      taken := Some(t);
    }
  }

  /**
   * `SimpleItemStack::add`: merge a stack of the same id (other ids fail
   * `assert_eq!`).  A sum above `u16::MAX` overflows.
   */
  method Add(self: SimpleItemStack, other: SimpleItemStack) returns (newSelf: SimpleItemStack)
    requires self.id == other.id
    requires self.count + other.count < 0x1_0000
    ensures newSelf.id == self.id
    ensures newSelf.count == self.count + other.count
  {
    newSelf := self.(count := self.count + other.count);
  }
}
