/** The pool of node indices: one bit per index, packed eight to a byte. */
module IndexPool {
  import opened Base

  /** `1U << k` in a byte. */
  function Mask(k: nat): bv8
    requires k < 8
  {
    match k
    case 0 => 0x01
    case 1 => 0x02
    case 2 => 0x04
    case 3 => 0x08
    case 4 => 0x10
    case 5 => 0x20
    case 6 => 0x40
    case 7 => 0x80
  }

  predicate Bit(b: bv8, k: nat)
    requires k < 8
  {
    b & Mask(k) != 0
  }

  lemma SetOneBit(b: bv8, k: nat, j: nat)
    requires k < 8 && j < 8
    ensures Bit(b | Mask(k), j) <==> j == k || Bit(b, j)
  {}

  lemma ClearOneBit(b: bv8, k: nat, j: nat)
    requires k < 8 && j < 8
    ensures Bit(b & !Mask(k), j) <==> j != k && Bit(b, j)
  {}

  lemma SetBits(b: bv8, k: nat)
    requires k < 8
    ensures forall j: nat | j < 8 :: Bit(b | Mask(k), j) <==> j == k || Bit(b, j)
  {
    forall j: nat | j < 8 {
      SetOneBit(b, k, j);
    }
  }

  lemma ClearBits(b: bv8, k: nat)
    requires k < 8
    ensures forall j: nat | j < 8 :: Bit(b & !Mask(k), j) <==> j != k && Bit(b, j)
  {
    forall j: nat | j < 8 {
      ClearOneBit(b, k, j);
    }
  }

  /** A bit has one place only. */
  lemma OnePlace(i: nat, j: nat)
    ensures i / 8 == j / 8 && i % 8 == j % 8 ==> i == j
  {}

  class Pool {
    const max: nat
    const bytes: array<bv8>
    ghost var used: set<nat>

    ghost predicate Valid()
      reads this, bytes
    {
      && max <= 8 * bytes.Length
      && (forall i | i in used :: i < max)
      && (forall i: nat | i < max :: i in used <==> Bit(bytes[i / 8], i % 8))
    }

    constructor (max: nat, size: nat)
      requires max <= 8 * size
      ensures Valid() && fresh(bytes) && this.max == max && used == {}
    {
      this.max := max;
      bytes := new bv8[size](_ => 0);
      used := {};
    }

    /** Set a bit and report what it was. */
    method TestAndSet(nr: nat) returns (was: bool)
      requires Valid() && nr < max
      modifies this, bytes
      ensures Valid()
      ensures was <==> nr in old(used)
      ensures used == old(used) + {nr}
    {
      hide Bit, Mask;
      var place, bit := nr / 8, nr % 8;
      was := Bit(bytes[place], bit);
      SetBits(bytes[place], bit);
      bytes[place] := bytes[place] | Mask(bit);
      used := used + {nr};
      forall i: nat | i < max
        ensures i in used <==> Bit(bytes[i / 8], i % 8)
      {
        OnePlace(i, nr);
      }
    }

    method PutIdx(nr: nat)
      requires Valid() && nr < max
      modifies this, bytes
      ensures Valid()
      ensures used == old(used) - {nr}
    {
      hide Bit, Mask;
      var place, bit := nr / 8, nr % 8;
      ClearBits(bytes[place], bit);
      bytes[place] := bytes[place] & !Mask(bit);
      used := used - {nr};
      forall i: nat | i < max
        ensures i in used <==> Bit(bytes[i / 8], i % 8)
      {
        OnePlace(i, nr);
      }
    }

    /** Take the lowest free index, or fail when every index is taken. */
    method GetIdx() returns (ok: bool, idx: nat)
      requires Valid()
      modifies this, bytes
      ensures Valid()
      ensures ok <==> |old(used)| < max
      ensures ok ==> idx < max && idx !in old(used) && used == old(used) + {idx}
      ensures ok ==> forall j: nat | j < idx :: j in used
      ensures !ok ==> used == old(used)
    {
      idx := 0;
      SubsetCount(used, Below(max));
      while idx < max
        invariant idx <= max
        invariant Valid() && used == old(used)
        invariant forall j: nat | j < idx :: j in used
      {
        var was := TestAndSet(idx);
        if !was {
          SubsetCount(old(used), Below(max));
          assert idx in Below(max);
          return true, idx;
        }
        assert used == old(used);
        idx := idx + 1;
      }
      ok := false;
      assert used == Below(max);
    }

    method Reset()
      requires max <= 8 * bytes.Length
      modifies this, bytes
      ensures Valid() && used == {}
    {
      forall i | 0 <= i < bytes.Length {
        bytes[i] := 0;
      }
      used := {};
    }
  }
}
