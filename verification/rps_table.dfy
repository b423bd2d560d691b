/** Sizing the table of receive flows: the mask for a count is one less than a power of two. */
module RpsTable {
  import opened Bits

  const EPERM := 1
  const ENOMEM := 12
  const EINVAL := 22
  const NO_CPU := 0xffff

  /** One less than the least power of two that is not below `count`. */
  ghost predicate MaskFor(count: nat, mask: nat) {
    && (exists k :: mask + 1 == Pow2(k))
    && mask + 1 >= count
    && forall k :: Pow2(k) >= count ==> mask + 1 <= Pow2(k)
  }

  lemma {:induction false} SomePower(count: nat) returns (k: nat)
    ensures Pow2(k) >= count
  {
    if count == 0 {
      k := 0;
    } else {
      k := SomePower(count - 1);
      k := k + 1;
    }
  }

  /** Bounded by the powers of two not below `count`. */
  ghost predicate BelowPowers(count: nat, mask: nat) {
    mask + 1 >= count && forall k :: Pow2(k) >= count ==> mask < Pow2(k)
  }

  lemma SmearBelow(count: nat, mask: nat)
    requires BelowPowers(count, mask)
    ensures BelowPowers(count, Or(mask, mask / 2)) && Or(mask, mask / 2) >= mask
  {
    OrAtLeast(mask, mask / 2);
    forall k | Pow2(k) >= count
      ensures Or(mask, mask / 2) < Pow2(k)
    {
      OrBelow(mask, mask / 2, k);
    }
  }

  /** The loop that smears the bits of `count - 1` downwards. */
  method Mask(count: nat) returns (mask: nat)
    requires count > 0
    ensures MaskFor(count, mask)
  {
    mask := count - 1;
    ghost var top := SomePower(count);
    while Or(mask, mask / 2) != mask
      invariant BelowPowers(count, mask)
      decreases Pow2(top) - mask
    {
      SmearBelow(count, mask);
      mask := Or(mask, mask / 2);
    }
    ghost var k := SmearedFull(mask);
  }

  /** The table of a queue has a slot for every hash under its mask. */
  datatype Table = Table(mask: nat, flows: seq<int>)

  ghost predicate TableOk(t: Table) {
    |t.flows| == t.mask + 1 && (exists k :: t.mask + 1 == Pow2(k)) && t.mask < Pow2(32)
  }

  /** The mask takes the remainder of a hash by the number of slots: every hash has a slot
      under it, and every slot a hash. */
  lemma EverySlot(t: Table)
    requires TableOk(t)
    ensures forall hash: nat :: And(hash, t.mask) == hash % |t.flows|
    ensures forall i: nat :: i < |t.flows| ==> And(i, t.mask) == i
  {
    var k :| t.mask + 1 == Pow2(k);
    forall hash: nat
      ensures And(hash, t.mask) == hash % |t.flows|
    {
      AndMask(hash, k);
    }
    forall i: nat | i < |t.flows|
      ensures And(i, t.mask) == i
    {
      RemainderIs(i, |t.flows|, 0, i);
    }
  }

  class RxQueue {
    var tables: seq<Table>    // the table in use, none or one

    ghost predicate Valid()
      reads this
    {
      |tables| <= 1 && forall t :: t in tables ==> TableOk(t)
    }

    /** aml_rps_dev_flow_table_set; `capable` and `memory` tell whether the caller may do it and
        whether the table can be allocated. */
    method SetTable(count: nat, capable: bool, memory: bool) returns (rc: int)
      requires Valid()
      modifies this
      ensures Valid()
      ensures rc ==
        if !capable then -EPERM
        else if count > Pow2(32) then -EINVAL
        else if count > 0 && !memory then -ENOMEM
        else 0
      ensures rc != 0 ==> tables == old(tables)
      ensures rc == 0 ==>
        if count == 0 then tables == []
        else |tables| == 1 && MaskFor(count, tables[0].mask)
             && forall i :: 0 <= i < |tables[0].flows| ==> tables[0].flows[i] == NO_CPU
    {
      if !capable {
        return -EPERM;
      }
      if count == 0 {
        tables := [];
        return 0;
      }
      var mask := Mask(count);
      MaskFits(count, mask, 32);
      if mask > 0xffff_ffff {
        return -EINVAL;
      }
      if !memory {
        return -ENOMEM;
      }
      var flows: seq<int> := [];
      var i := 0;
      while i <= mask
        invariant i <= mask + 1 && |flows| == i && forall j :: 0 <= j < i ==> flows[j] == NO_CPU
      {
        flows := flows + [NO_CPU];
        i := i + 1;
      }
      tables := [Table(mask, flows)];
      return 0;
    }
  }

  /** The mask fits in `k` bits exactly if the count is at most that power of two. */
  lemma MaskFits(count: nat, mask: nat, k: nat)
    requires MaskFor(count, mask)
    ensures mask < Pow2(k) <==> count <= Pow2(k)
    ensures Pow2(32) == 0x1_0000_0000
  {
    assert Pow2(8) == 0x100;
    assert Pow2(16) == 0x1_0000;
    assert Pow2(24) == 0x100_0000;
  }
}
