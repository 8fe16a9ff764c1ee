/**
 The bucketed hash table that the kernel server, the userland server and the kernel
 client each carry: a fixed two-dimensional array of slots, one row of slots a bucket.
 A bucket is kept packed, so every scan may stop at its first free slot; a deleted
 entry is overwritten by the last entry of its bucket.
 */
module Buckets {
  import opened Base

  datatype Slot<K, V> = Free | Live(key: K, val: V)

  /** The row counter of the insertion loops is an 8-bit variable. */
  function NextRow(r: nat): nat { (r + 1) % 0x100 }

  /** The counter after `n` turns of the loop. */
  function RowAfter(n: nat): nat {
    if n == 0 then 0 else NextRow(RowAfter(n - 1))
  }

  /** The search leaves its loop at turn `n`: end of the bucket, or first free slot. */
  ghost predicate StopsAt(depth: nat, fill: nat, n: nat) {
    RowAfter(n) >= depth || RowAfter(n) >= fill
  }

  lemma NextWraps(n: nat)
    ensures NextRow(n % 0x100) == (n + 1) % 0x100
  {
    var q, r := n / 0x100, n % 0x100;
    if r < 0xff {
      Residue(n + 1, q, r + 1, 0x100);
      Residue(r + 1, 0, r + 1, 0x100);
    } else {
      Residue(n + 1, q + 1, 0, 0x100);
      Residue(r + 1, 1, 0, 0x100);
    }
  }

  lemma {:induction false} RowAfterWraps(n: nat)
    ensures RowAfter(n) == n % 0x100
  {
    hide NextRow;
    if n > 0 {
      RowAfterWraps(n - 1);
      NextWraps(n - 1);
    }
  }

  /** The 8-bit search of a bucket with `fill` entries ends exactly when a stop lies below 256. */
  lemma RowSearchEnds(depth: nat, fill: nat)
    requires fill <= depth
    ensures (exists n: nat :: StopsAt(depth, fill, n)) <==> depth < 0x100 || fill < 0x100
  {
    hide RowAfter;
    if fill < 0x100 {
      RowAfterWraps(fill);
      Residue(fill, 0, fill, 0x100);
      assert StopsAt(depth, fill, fill);
    }
    forall n: nat | StopsAt(depth, fill, n)
      ensures depth < 0x100 || fill < 0x100
    {
      RowAfterWraps(n);
    }
  }

  /** The keys that share the bucket of `k`. */
  ghost function Bucketmates<K>(keys: set<K>, k: K, hash: K -> nat): set<K> {
    set o | o in keys && hash(o) == hash(k)
  }

  /** They leave no room in a bucket of the given depth. */
  ghost predicate Crowded<K>(keys: set<K>, k: K, depth: nat, hash: K -> nat) {
    |Bucketmates(keys, k, hash)| >= depth
  }

  class Table<K(!new, ==), V> {
    const hash: K -> nat
    const slots: array2<Slot<K, V>>

    // What the table means: a finite map, where each key sits, how full each bucket is.
    ghost var view: map<K, V>
    ghost var row: map<K, nat>
    ghost var fill: seq<nat>

    /** The bucket a key belongs to. */
    function Home(k: K): nat { hash(k) }

    ghost predicate Hashes()
      reads this
    {
      forall k :: Home(k) < slots.Length0
    }

    /** Each bucket is filled from slot 0 and free behind its last entry. */
    ghost predicate Packed()
      reads this, slots
    {
      && |fill| == slots.Length0
      && (forall b | 0 <= b < slots.Length0 :: fill[b] <= slots.Length1)
      && (forall b, r | 0 <= b < slots.Length0 && 0 <= r < slots.Length1 ::
            slots[b, r].Live? <==> r < fill[b])
    }

    /** Every key of the map sits in its own bucket, at its recorded row. */
    ghost predicate KeysPlaced()
      requires Hashes() && Packed()
      reads this, slots
    {
      && row.Keys == view.Keys
      && (forall k | k in view ::
            row[k] < fill[Home(k)] && slots[Home(k), row[k]] == Live(k, view[k]))
    }

    /** Every live slot holds a key of the map, and no key has a second slot. */
    ghost predicate SlotsAccounted()
      requires Hashes() && Packed()
      reads this, slots
    {
      forall b, r | 0 <= b < slots.Length0 && 0 <= r < fill[b] ::
        var k := slots[b, r].key;
        k in view && k in row && Home(k) == b && row[k] == r
    }

    ghost predicate Valid()
      reads this, slots
    {
      Hashes() && Packed() && KeysPlaced() && SlotsAccounted()
    }

    lemma ValidHashes()
      requires Valid()
      ensures Hashes() && Packed()
    {}

    /** Key `k` sits in slot `r` of bucket `b`. */
    ghost predicate At(k: K, b: nat, r: nat)
      reads this
    {
      k in view && k in row && b == Home(k) && r == row[k]
    }

    /** Slot `r` is the first free one of bucket `b`. */
    ghost predicate FirstFree(b: nat, r: nat)
      reads this
    {
      b < |fill| == slots.Length0 && r == fill[b] < slots.Length1
    }

    constructor (buckets: nat, depth: nat, hash: K -> nat)
      requires forall k :: hash(k) < buckets
      ensures Valid() && fresh(slots) && this.hash == hash
      ensures slots.Length0 == buckets && slots.Length1 == depth
      ensures view == map[]
    {
      this.hash := hash;
      slots := new Slot<K, V>[buckets, depth]((b, r) => Free);
      view, row, fill := map[], map[], seq(buckets, b => 0);
    }

    /** Scan the key's bucket up to the first free slot. */
    method Lookup(k: K) returns (v: Option<V>, b: nat, r: nat)
      requires Valid()
      ensures v == if k in view then Some(view[k]) else None
      ensures b == Home(k) && b < slots.Length0
      ensures v.Some? ==> At(k, b, r)
      ensures v == None ==> r == 0
    {
      hide Home;
      b := Home(k);
      v, r := None, 0;
      var i := 0;
      while i < slots.Length1
        invariant 0 <= i <= fill[b] <= slots.Length1
        invariant forall j | 0 <= j < i :: slots[b, j].key != k
      {
        if slots[b, i].Free? {
          break;
        }
        if slots[b, i].key == k {
          return Some(slots[b, i].val), b, i;
        }
        i := i + 1;
      }
    }

    /** Find a free slot with the 8-bit counter; `ok` is false when the bucket is full. */
    method FindFree(b: nat) returns (ok: bool, r: nat)
      requires Valid() && b < slots.Length0
      requires slots.Length1 < 0x100 || fill[b] < 0x100
      ensures ok <==> fill[b] < slots.Length1
      ensures ok ==> FirstFree(b, r)
    {
      r := 0;
      while r < slots.Length1
        invariant r <= fill[b] <= slots.Length1 && r < 0x100
        decreases fill[b] - r
      {
        if slots[b, r].Free? {
          return true, r;
        }
        r := NextRow(r);
      }
      ok := false;
    }

    /** Put a new key in the first free slot of its bucket. */
    method Insert(k: K, v: V, b: nat, r: nat)
      requires Valid() && k !in view
      requires b == Home(k) && FirstFree(b, r)
      modifies this, slots
      ensures Valid() && At(k, b, r)
      ensures view == old(view)[k := v]
    {
      hide Home;
      slots[b, r] := Live(k, v);
      view, row, fill := view[k := v], row[k := r], fill[b := r + 1];
      assert Packed();
      assert KeysPlaced();
      assert SlotsAccounted();
    }

    /** Overwrite the value of the entry in a live slot. */
    method Update(b: nat, r: nat, v: V, ghost k: K)
      requires Valid() && At(k, b, r)
      modifies this`view, slots
      ensures Valid()
      ensures view == old(view)[k := v]
    {
      hide Home;
      slots[b, r] := Live(slots[b, r].key, v);
      view := view[k := v];
    }

    /** Search the bucket backwards for the entry to move into slot `r`; -1 when it is the last. */
    method FindLast(b: nat, r: nat) returns (j: int)
      requires Valid() && b < slots.Length0 && r < fill[b]
      ensures j == if r == fill[b] - 1 then -1 else fill[b] - 1
    {
      j := slots.Length1 - 1;
      while j >= 0
        invariant fill[b] - 1 <= j < slots.Length1
        decreases j
      {
        if r == j {
          return -1;
        }
        if slots[b, j].Live? {
          break;
        }
        j := j - 1;
      }
    }

    /** Delete the entry in slot `r`: the last entry of the bucket takes its place. */
    method Remove(b: nat, r: nat, ghost k: K)
      requires Valid() && At(k, b, r)
      modifies this, slots
      ensures Valid()
      ensures view == old(view) - {k}
    {
      var j := FindLast(b, r);
      if j >= 0 {
        MoveInto(b, r, j, k);
      } else {
        DropLast(b, r, k);
      }
    }

    /** The last entry of the bucket overwrites the deleted one, and its own slot is freed. */
    method MoveInto(b: nat, r: nat, j: nat, ghost k: K)
      requires Valid() && At(k, b, r) && r < j && fill[b] == j + 1
      modifies this, slots
      ensures Valid()
      ensures view == old(view) - {k}
    {
      hide Home;
      ghost var moved := slots[b, j].key;
      slots[b, r] := slots[b, j];
      slots[b, j] := Free;
      view, row, fill := view - {k}, (row - {k})[moved := r], fill[b := j];
      assert Packed();
      assert KeysPlaced();
      assert SlotsAccounted();
    }

    method DropLast(b: nat, r: nat, ghost k: K)
      requires Valid() && At(k, b, r) && fill[b] == r + 1
      modifies this, slots
      ensures Valid()
      ensures view == old(view) - {k}
    {
      hide Home;
      slots[b, r] := Free;
      view, row, fill := view - {k}, row - {k}, fill[b := r];
      assert Packed();
      assert KeysPlaced();
      assert SlotsAccounted();
    }

    // ---- emptying the table slot by slot, front slot first ----

    /** Keys and live slots match, but a bucket may have holes. */
    ghost predicate Loose()
      reads this, slots
    {
      && Hashes()
      && row.Keys == view.Keys
      && (forall k | k in view ::
            row[k] < slots.Length1 && slots[Home(k), row[k]] == Live(k, view[k]))
      && (forall b, r | 0 <= b < slots.Length0 && 0 <= r < slots.Length1 && slots[b, r].Live? ::
            var k := slots[b, r].key; k in view && k in row && Home(k) == b && row[k] == r)
    }

    lemma LiveSlot(b: nat, r: nat)
      requires Loose() && b < slots.Length0 && r < slots.Length1 && slots[b, r].Live?
      ensures slots[b, r].key in view && view[slots[b, r].key] == slots[b, r].val
    {}

    lemma ValidIsLoose()
      requires Valid()
      ensures Loose()
    {}

    /** Zero one slot, leaving a hole. */
    method Wipe(b: nat, r: nat) returns (ghost k: K)
      requires Loose() && b < slots.Length0 && r < slots.Length1 && slots[b, r].Live?
      modifies this`view, this`row, slots
      ensures Loose() && k == old(slots[b, r].key)
      ensures view == old(view) - {k}
      ensures slots[b, r].Free?
      ensures forall c, s | 0 <= c < slots.Length0 && 0 <= s < slots.Length1 && !(c == b && s == r) ::
        slots[c, s] == old(slots[c, s])
    {
      hide Home;
      k := slots[b, r].key;
      slots[b, r] := Free;
      view, row := view - {k}, row - {k};
    }

    /** Once every slot is free the table is the empty one. */
    ghost method Emptied()
      requires Loose()
      requires forall b, r | 0 <= b < slots.Length0 && 0 <= r < slots.Length1 :: slots[b, r].Free?
      modifies this`fill
      ensures Valid() && view == map[]
    {
      assert forall k | k in view :: false;
      fill := seq(slots.Length0, b => 0);
    }

    /** Zero the whole array. */
    method Reset()
      requires Hashes()
      modifies this, slots
      ensures Valid() && view == map[]
    {
      forall b, r | 0 <= b < slots.Length0 && 0 <= r < slots.Length1 {
        slots[b, r] := Free;
      }
      view, row, fill := map[], map[], seq(slots.Length0, b => 0);
    }

    /** The keys met before bucket `i`, slot `j`. */
    ghost function Seen(i: nat, j: nat): set<K>
      requires Valid()
      reads this, slots
    {
      set k | k in view && (Home(k) < i || (Home(k) == i && row[k] < j))
    }

    /** List the keys bucket by bucket, leaving each bucket at its first free slot. */
    method Keys() returns (keys: seq<K>)
      requires Valid()
      ensures Distinct(keys) && SetOf(keys) == view.Keys && |keys| == |view|
    {
      hide Home;
      keys := [];
      var i := 0;
      while i < slots.Length0
        invariant 0 <= i <= slots.Length0
        invariant Distinct(keys) && SetOf(keys) == Seen(i, 0)
      {
        var j := 0;
        while j < slots.Length1
          invariant 0 <= j <= fill[i]
          invariant Distinct(keys) && SetOf(keys) == Seen(i, j)
        {
          if slots[i, j].Free? {
            break;
          }
          assert slots[i, j].key !in SetOf(keys);
          assert Seen(i, j + 1) == Seen(i, j) + {slots[i, j].key};
          keys := keys + [slots[i, j].key];
          j := j + 1;
        }
        assert Seen(i, j) == Seen(i + 1, 0);
        i := i + 1;
      }
      assert Seen(i, 0) == view.Keys;
      DistinctCount(keys);
      assert |view| == |view.Keys|;
    }

    /** The keys of the map that belong to one bucket. */
    ghost function Residents(b: nat): set<K>
      reads this
    {
      set k | k in view && Home(k) == b
    }

    /** A bucket holds exactly its residents, so never more entries than the table does. */
    lemma FillBound(b: nat)
      requires Valid() && b < slots.Length0
      ensures fill[b] == |Residents(b)| <= |view| && fill[b] <= slots.Length1
    {
      hide Home;
      var s := seq(fill[b], r requires 0 <= r < slots.Length1 && slots[b, r].Live? reads slots => slots[b, r].key);
      assert forall i | 0 <= i < |s| :: s[i] in view && row[s[i]] == i && Home(s[i]) == b;
      assert Distinct(s);
      DistinctCount(s);
      forall k | k in Residents(b)
        ensures k in s
      {
        assert s[row[k]] == k;
      }
      assert SetOf(s) == Residents(b);
      SubsetCount(SetOf(s), view.Keys);
      assert |view| == |view.Keys|;
    }
  }
}
