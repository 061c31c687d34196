/**
 The inline-cache slots of chained exits, and the run header that one call
 into translated code reads and updates: one allocation, changed in place.
 */
module Chain {
  import opened Words

  /** One exit site's inline cache. No 32-bit EIP equals the unlinked mark. */
  datatype Slot = Unlinked | Linked(guest: Word, host: nat)

  class Chain {
    const capacity: nat
    const slots: array<Slot>
    var claimed: nat
    // the run header
    var budget: nat
    var stop: Word
    var last: Word
    var pending: nat

    ghost predicate Valid()
      reads this`claimed
    {
      slots.Length == capacity && claimed <= capacity
    }

    constructor (size: nat)
      ensures Valid() && capacity == size && claimed == 0 && pending == 0 && fresh(slots)
    {
      capacity := size;
      slots := new Slot[size](_ => Unlinked);
      claimed, budget, stop, last, pending := 0, 0, 0, 0, 0;
    }

    /** A fresh, unlinked slot; none when every slot is claimed. */
    method Claim() returns (ok: bool, slot: nat)
      requires Valid()
      modifies this`claimed, slots
      ensures Valid() && ok == (old(claimed) < capacity)
      ensures ok ==> slot == old(claimed) && claimed == old(claimed) + 1 && slots[slot] == Unlinked
      ensures !ok ==> claimed == old(claimed)
      ensures forall i :: 0 <= i < slots.Length && (ok ==> i != slot) ==> slots[i] == old(slots[i])
    {
      ok, slot := claimed < capacity, claimed;
      if ok {
        slots[claimed] := Unlinked;
        claimed := claimed + 1;
      }
    }

    method Rewind(mark: nat)
      requires Valid()
      modifies this`claimed
      ensures Valid() && claimed == if mark < old(claimed) then mark else old(claimed)
    {
      if mark < claimed { claimed := mark; }
    }

    method Link(slot: nat, guest: Word, host: nat)
      requires Valid() && slot < claimed
      modifies slots
      ensures slots[slot] == Linked(guest, host)
      ensures forall i :: 0 <= i < slots.Length && i != slot ==> slots[i] == old(slots[i])
    {
      slots[slot] := Linked(guest, host);
    }

    /** Every claimed slot unlinked, still claimed. */
    method UnlinkAll()
      requires Valid()
      modifies this`pending, slots
      ensures Valid() && pending == 0
      ensures forall i :: 0 <= i < claimed ==> slots[i] == Unlinked
      ensures forall i :: claimed <= i < slots.Length ==> slots[i] == old(slots[i])
    {
      for i := 0 to claimed
        invariant forall j :: 0 <= j < i ==> slots[j] == Unlinked
        invariant forall j :: i <= j < slots.Length ==> slots[j] == old(slots[j])
      {
        slots[i] := Unlinked;
      }
      pending := 0;
    }

    /** Every slot unlinked and returned. */
    method Reset()
      requires Valid()
      modifies this`pending, this`claimed, slots
      ensures Valid() && pending == 0 && claimed == 0
      ensures forall i :: 0 <= i < old(claimed) ==> slots[i] == Unlinked
    {
      UnlinkAll();
      claimed := 0;
    }
  }
}
