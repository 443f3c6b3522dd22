/**
 * The storage side of a rack block entity (TileEntityRack): a fixed-size
 * slot buffer, the per-item content map rebuilt from it, the free-slot
 * counter, the size tier and the offset to the owning controller.
 */
module Storage {
  import opened Grid

  /** ItemStorage: an item type with its distinguishing data, compared only for equality. */
  type ItemKey(==, !new)

  /** The size of a non-empty stack. */
  type StackSize = n: nat | n > 0 witness 1

  /** One inventory slot: empty, or a stack of `size` items of one key. */
  datatype Slot = Empty | Stack(key: ItemKey, size: StackSize)

  datatype Option<T> = None | Some(value: T)

  /** Slots of a rack of tier 0; each tier adds one line. */
  const DEFAULT_SIZE: nat := 27
  const SLOT_PER_LINE: nat := 9

  /** The slot capacity of a rack of the given size tier. */
  function Capacity(size: nat): (n: nat)
    ensures n >= DEFAULT_SIZE
  {
    DEFAULT_SIZE + size * SLOT_PER_LINE
  }

  /** `map.getOrDefault(k, 0)`. */
  function CountIn(m: map<ItemKey, nat>, k: ItemKey): nat {
    if k in m then m[k] else 0
  }

  /** The number of items of key k held in the slots: the reference for the content map. */
  function Total(slots: seq<Slot>, k: ItemKey): nat {
    if slots == [] then 0
    else
      var last := slots[|slots| - 1];
      Total(slots[..|slots| - 1], k) + (if last.Stack? && last.key == k then last.size else 0)
  }

  /** The number of empty slots: the reference for the free-slot counter. */
  function EmptyCount(slots: seq<Slot>): nat {
    if slots == [] then 0
    else EmptyCount(slots[..|slots| - 1]) + (if slots[|slots| - 1].Empty? then 1 else 0)
  }

  /**
   * `content` is exactly the aggregate of the slots: every key counts the
   * items of that key, and no key is present with a zero count.
   */
  ghost predicate IsContentOf(content: map<ItemKey, nat>, slots: seq<Slot>) {
    && (forall k :: CountIn(content, k) == Total(slots, k))
    && (forall k :: k in content ==> content[k] > 0)
  }

  /** A slot holding a stack of k contributes its whole size to the total of k. */
  lemma {:induction false} TotalAtLeastSlot(slots: seq<Slot>, i: nat)
    requires i < |slots| && slots[i].Stack?
    ensures Total(slots, slots[i].key) >= slots[i].size
  {
    var front := slots[..|slots| - 1];
    if i < |slots| - 1 {
      assert front[i] == slots[i];
      TotalAtLeastSlot(front, i);
    }
  }

  /** Slots that are all empty hold nothing. */
  lemma {:induction false} TotalOfEmptySlots(slots: seq<Slot>, k: ItemKey)
    requires forall i :: 0 <= i < |slots| ==> slots[i].Empty?
    ensures Total(slots, k) == 0
  {
    if slots != [] {
      var front := slots[..|slots| - 1];
      assert forall i :: 0 <= i < |front| ==> front[i] == slots[i];
      TotalOfEmptySlots(front, k);
    }
  }

  /** An aggregate is empty exactly when every slot is empty. */
  lemma ContentEmptyIffSlotsEmpty(content: map<ItemKey, nat>, slots: seq<Slot>)
    ensures IsContentOf(content, slots) ==>
      (content == map[] <==> forall i :: 0 <= i < |slots| ==> slots[i].Empty?)
  {
    if IsContentOf(content, slots) {
      forall i | 0 <= i < |slots| && slots[i].Stack?
        ensures slots[i].key in content
      {
        TotalAtLeastSlot(slots, i);
      }
      if forall i :: 0 <= i < |slots| ==> slots[i].Empty? {
        if content != map[] {
          var k :| k in content;
          TotalOfEmptySlots(slots, k);
        }
      }
    }
  }

  /** The aggregate of a slot sequence is unique, so rebuilding it twice gives the same map. */
  lemma ContentIsUnique(c1: map<ItemKey, nat>, c2: map<ItemKey, nat>, slots: seq<Slot>)
    requires IsContentOf(c1, slots) && IsContentOf(c2, slots)
    ensures c1 == c2
  {
    forall k | k in c1
      ensures k in c2 && c2[k] == c1[k]
    {
      assert CountIn(c1, k) == Total(slots, k) == CountIn(c2, k);
    }
    forall k | k in c2
      ensures k in c1
    {
      assert CountIn(c1, k) == Total(slots, k) == CountIn(c2, k);
    }
  }

  /** n empty slots, as a freshly allocated buffer holds them. */
  function EmptySlots(n: nat): (s: seq<Slot>)
    ensures |s| == n && forall i :: 0 <= i < n ==> s[i] == Empty
  {
    seq(n, _ => Empty)
  }

  /** Appending empty slots changes no item total and adds that many free slots. */
  lemma {:induction false} PaddingKeepsTotals(slots: seq<Slot>, n: nat)
    ensures forall k :: Total(slots + EmptySlots(n), k) == Total(slots, k)
    ensures EmptyCount(slots + EmptySlots(n)) == EmptyCount(slots) + n
  {
    var padded := slots + EmptySlots(n);
    if n > 0 {
      assert padded[..|padded| - 1] == slots + EmptySlots(n - 1);
      assert padded[|padded| - 1] == Empty;
      PaddingKeepsTotals(slots, n - 1);
    } else {
      assert padded == slots;
    }
  }

  /** The frame materials that `checkForUpgrade` looks for, in the order it tests them. */
  const Materials: seq<string> := ["stone", "iron", "gold", "emerald", "diamond"]

  /** Java's `String.contains`. */
  predicate Contains(s: string, part: string) {
    exists i :: 0 <= i <= |s| && part <= s[i..]
  }

  /**
   * The size tier a rack block's registry path calls for: 1 + the index of
   * the first material it mentions, or `current` if it mentions none.
   */
  function TierFromName(name: string, current: nat): (tier: nat)
    ensures (forall j :: 0 <= j < 5 ==> !Contains(name, Materials[j])) ==> tier == current
    ensures (exists j :: 0 <= j < 5 && Contains(name, Materials[j])) ==>
      1 <= tier <= 5 && Contains(name, Materials[tier - 1]) &&
      forall j :: 0 <= j < tier - 1 ==> !Contains(name, Materials[j])
  {
    assert Materials[0] == "stone" && Materials[1] == "iron" && Materials[2] == "gold";
    assert Materials[3] == "emerald" && Materials[4] == "diamond";
    if Contains(name, "stone") then 1
    else if Contains(name, "iron") then 2
    else if Contains(name, "gold") then 3
    else if Contains(name, "emerald") then 4
    else if Contains(name, "diamond") then 5
    else current
  }

  /** Items thrown into the world when a rack's inventory is dropped. */
  datatype Dropped = Dropped(at: Pos, key: ItemKey, size: StackSize)

  /** `InventoryUtils.dropItemHandler`: every non-empty slot, in slot order, dropped at `at`. */
  function DropsOf(at: Pos, slots: seq<Slot>): seq<Dropped> {
    if slots == [] then []
    else
      var last := slots[|slots| - 1];
      DropsOf(at, slots[..|slots| - 1]) + (if last.Stack? then [Dropped(at, last.key, last.size)] else [])
  }

  /** The number of items of key k among some drops. */
  function DroppedTotal(drops: seq<Dropped>, k: ItemKey): nat {
    if drops == [] then 0
    else DroppedTotal(drops[..|drops| - 1], k) + (if drops[|drops| - 1].key == k then drops[|drops| - 1].size else 0)
  }

  lemma {:induction false} DroppedTotalAppend(a: seq<Dropped>, b: seq<Dropped>, k: ItemKey)
    ensures DroppedTotal(a + b, k) == DroppedTotal(a, k) + DroppedTotal(b, k)
  {
    if b != [] {
      assert (a + b)[..|a + b| - 1] == a + b[..|b| - 1];
      assert (a + b)[|a + b| - 1] == b[|b| - 1];
      DroppedTotalAppend(a, b[..|b| - 1], k);
    } else {
      assert a + b == a;
    }
  }

  /** Dropping an inventory loses no item: each key is dropped exactly as often as the slots hold it. */
  lemma {:induction false} DropsKeepTotals(at: Pos, slots: seq<Slot>, k: ItemKey)
    ensures DroppedTotal(DropsOf(at, slots), k) == Total(slots, k)
    ensures forall d :: d in DropsOf(at, slots) ==> d.at == at
  {
    if slots != [] {
      var front := slots[..|slots| - 1];
      var last := slots[|slots| - 1];
      DropsKeepTotals(at, front, k);
      var tail := if last.Stack? then [Dropped(at, last.key, last.size)] else [];
      DroppedTotalAppend(DropsOf(at, front), tail, k);
      if last.Stack? {
        assert DroppedTotal(tail, k) == DroppedTotal([], k) + (if last.key == k then last.size else 0);
      }
    }
  }

  /** The block entity of a rack. */
  class Rack {
    /** The slot buffer (an ItemStackHandler). */
    var inventory: array<Slot>
    /** Items per key, as last rebuilt by UpdateContent. */
    var content: map<ItemKey, nat>
    /** Size tier: 0 by default, 1 to 5 after an upgrade. */
    var size: nat
    /** Free slots, as last counted by UpdateContent. */
    var freeSlots: nat
    /** Offset of this rack from its controller (rack position minus controller position), if any. */
    var controller: Option<Pos>
    /** The block's VARIANT property: FULL when true, DEFAULT when false. */
    var full: bool

    /** No key in the content map has a zero count. */
    ghost predicate Valid()
      reads this`content
    {
      forall k :: k in content ==> content[k] > 0
    }

    /** The content map and the free-slot counter agree with the slots. */
    ghost predicate Consistent()
      reads this`content, this`freeSlots, this`inventory, inventory
    {
      IsContentOf(content, inventory[..]) && freeSlots == EmptyCount(inventory[..])
    }

    function GetFreeSlots(): (n: nat)
      reads this`freeSlots, this`content, this`inventory, inventory
      ensures Consistent() ==> n == EmptyCount(inventory[..])
    {
      freeSlots
    }

    /** `hasItemStack(stack, count)`: this rack alone holds at least `count` of the key. */
    function HasItemStack(k: ItemKey, count: int): (b: bool)
      reads this`content, this`freeSlots, this`inventory, inventory
      ensures b <==> CountIn(content, k) >= count
      ensures Consistent() ==> (b <==> Total(inventory[..], k) >= count)
    {
      CountIn(content, k) >= count
    }

    /** `getCount(stack)`: the items of the key in this rack, 0 when absent. */
    function GetCount(k: ItemKey): (n: nat)
      reads this`content, this`freeSlots, this`inventory, inventory
      ensures k !in content ==> n == 0
      ensures Consistent() ==> n == Total(inventory[..], k)
    {
      CountIn(content, k)
    }

    /** `isEmpty()`: the content map is empty, which for a consistent rack means every slot is empty. */
    function IsEmpty(): (b: bool)
      reads this`content, this`freeSlots, this`inventory, inventory
      ensures Consistent() ==> (b <==> forall i :: 0 <= i < inventory.Length ==> inventory[i].Empty?)
    {
      ContentEmptyIffSlotsEmpty(content, inventory[..]);
      content == map[]
    }

    /**
     * `updateContent`: clear the content map and the free-slot counter and
     * rebuild both from the slots. The result depends on the slots only.
     */
    method UpdateContent()
      modifies this`content, this`freeSlots
      ensures Consistent() && Valid()
    {
      content := map[];
      freeSlots := 0;
      for slot := 0 to inventory.Length
        invariant forall k :: CountIn(content, k) == Total(inventory[..slot], k)
        invariant forall k :: k in content ==> content[k] > 0
        invariant freeSlots == EmptyCount(inventory[..slot])
      {
        assert inventory[..slot + 1][..slot] == inventory[..slot];
        var stack := inventory[slot];
        if stack.Empty? {
          freeSlots := freeSlots + 1;
          continue;
        }
        var amount: nat := stack.size;
        if stack.key in content {
          amount := amount + content[stack.key];
          content := content - {stack.key};
        }
        content := content[stack.key := amount];
      }
      assert inventory[..inventory.Length] == inventory[..];
    }

    /**
     * `updateItemStorage`: on the server, rebuild the content and, when the
     * rack went from empty to non-empty or back, switch the block variant.
     */
    method UpdateItemStorage(isServer: bool)
      modifies this`content, this`freeSlots, this`full
      ensures !isServer ==> content == old(content) && freeSlots == old(freeSlots) && full == old(full)
      ensures isServer ==> Consistent() && Valid()
      ensures isServer ==> full == if (old(content) == map[]) != (content == map[]) then content != map[] else old(full)
    {
      if isServer {
        var empty := content == map[];
        UpdateContent();
        if (empty && content != map[]) || (!empty && content == map[]) {
          full := content != map[];
        }
      }
    }

    /**
     * `upgradeItemStorage`: allocate a buffer of the capacity of the current
     * size tier and copy every old slot to the same index. A buffer smaller
     * than the old one makes the copy fail on the first index out of range;
     * the rack then keeps its old buffer.
     */
    method UpgradeItemStorage() returns (ok: bool)
      modifies this`inventory
      ensures ok <==> old(inventory.Length) <= Capacity(size)
      ensures !ok ==> inventory == old(inventory)
      ensures ok ==> fresh(inventory) && inventory.Length == Capacity(size)
      ensures ok ==> inventory[..] == old(inventory[..]) + EmptySlots(Capacity(size) - old(inventory.Length))
      ensures ok && old(Consistent()) ==>
        IsContentOf(content, inventory[..]) &&
        freeSlots + (Capacity(size) - old(inventory.Length)) == EmptyCount(inventory[..])
    {
      var temp := new Slot[Capacity(size)](_ => Empty);
      var current := inventory;
      if current.Length > temp.Length {
        return false;
      }
      for slot := 0 to current.Length
        invariant temp[..slot] == current[..slot]
        invariant forall i :: slot <= i < temp.Length ==> temp[i] == Empty
      {
        temp[slot] := current[slot];
      }
      ghost var added := temp.Length - current.Length;
      assert temp[..] == current[..] + EmptySlots(added);
      PaddingKeepsTotals(current[..], added);
      inventory := temp;
      ok := true;
    }

    /**
     * `checkForUpgrade`: take the size tier from the block name and resize
     * the buffer when it differs from `oldSize`.
     */
    method CheckForUpgrade(name: string, oldSize: int) returns (ok: bool)
      modifies this`size, this`inventory
      ensures size == TierFromName(name, old(size))
      ensures oldSize == size ==> ok && inventory == old(inventory)
      ensures oldSize != size ==> (ok <==> old(inventory.Length) <= Capacity(size))
      ensures oldSize != size && ok ==>
        && fresh(inventory) && inventory.Length == Capacity(size)
        && inventory[..] == old(inventory[..]) + EmptySlots(Capacity(size) - old(inventory.Length))
      ensures !ok ==> inventory == old(inventory)
    {
      size := TierFromName(name, size);
      ok := true;
      if oldSize != size {
        ok := UpgradeItemStorage();
      }
    }
  }
}
