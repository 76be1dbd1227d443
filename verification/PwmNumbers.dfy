/** Global PWM numbers: the allocation bitmap, the lookup tree and the list of chips agree at all times. */
module PwmNumbers {
  import opened Wrappers

  const MAX_PWMS: nat := 1024

  type ChipId = nat

  /** A listed chip: its first number and its number of channels. */
  datatype Chip = Chip(base: nat, npwm: nat)

  /** `struct pwm_device`: the chip, and the channel on it. */
  datatype Pwm = Pwm(chip: ChipId, hwpwm: nat)

  ghost predicate FreeRun(bits: seq<bool>, start: int, count: nat) {
    0 <= start && start + count <= |bits| && forall i :: start <= i < start + count ==> !bits[i]
  }

  predicate OnTree(tree: map<int, Pwm>, n: int, d: Pwm) {
    n in tree && tree[n] == d
  }

  /** A bit is set exactly when the tree has a device for the number. */
  ghost predicate BitsMatch(bitmap: seq<bool>, tree: map<int, Pwm>) {
    |bitmap| == MAX_PWMS && forall n :: n in tree <==> 0 <= n < MAX_PWMS && bitmap[n]
  }

  ghost predicate Placed(chips: map<ChipId, Chip>, n: int, d: Pwm) {
    d.chip in chips && d.hwpwm < chips[d.chip].npwm && n == chips[d.chip].base + d.hwpwm
  }

  /** Every device is a channel of a listed chip, and its number is base plus channel. */
  ghost predicate AllPlaced(tree: map<int, Pwm>, chips: map<ChipId, Chip>) {
    forall n <- tree :: Placed(chips, n, tree[n])
  }

  /** Every channel of the chip is found under its number. */
  ghost predicate Found(tree: map<int, Pwm>, id: ChipId, c: Chip) {
    forall n :: c.base <= n < c.base + c.npwm ==> n in tree && tree[n] == Pwm(id, n - c.base)
  }

  ghost predicate AllFound(tree: map<int, Pwm>, chips: map<ChipId, Chip>) {
    forall c <- chips :: Found(tree, c, chips[c])
  }

  ghost predicate Consistent(bitmap: seq<bool>, tree: map<int, Pwm>, chips: map<ChipId, Chip>) {
    BitsMatch(bitmap, tree) && AllPlaced(tree, chips) && AllFound(tree, chips)
  }

  /** Bits `first` up to `first + count` set to `value`. */
  ghost predicate BitsSet(before: seq<bool>, after: seq<bool>, first: int, count: nat, value: bool) {
    && |before| == |after|
    && forall n :: 0 <= n < |before| ==> after[n] == if first <= n < first + count then value else before[n]
  }

  ghost predicate Inserted(before: map<int, Pwm>, after: map<int, Pwm>, first: int, count: nat, id: ChipId) {
    && (forall n :: n in after <==> n in before || first <= n < first + count)
    && (forall n <- after :: if first <= n < first + count then after[n] == Pwm(id, n - first) else OnTree(before, n, after[n]))
  }

  ghost predicate Deleted(before: map<int, Pwm>, after: map<int, Pwm>, first: int, count: nat) {
    && (forall n :: n in after <==> n in before && !(first <= n < first + count))
    && (forall n <- after :: OnTree(before, n, after[n]))
  }

  lemma AddPlaced(tree: map<int, Pwm>, chips: map<ChipId, Chip>, tree': map<int, Pwm>, id: ChipId, c: Chip)
    requires AllPlaced(tree, chips) && id !in chips && Inserted(tree, tree', c.base, c.npwm, id)
    ensures AllPlaced(tree', chips[id := c])
  {
    forall n | n in tree' ensures Placed(chips[id := c], n, tree'[n]) {
      if !(c.base <= n < c.base + c.npwm) {
        assert OnTree(tree, n, tree'[n]);
        assert Placed(chips, n, tree[n]);
      }
    }
  }

  lemma AddFound(
      bitmap: seq<bool>, tree: map<int, Pwm>, chips: map<ChipId, Chip>, tree': map<int, Pwm>, id: ChipId, c: Chip)
    requires BitsMatch(bitmap, tree) && AllFound(tree, chips) && id !in chips
    requires FreeRun(bitmap, c.base, c.npwm) && Inserted(tree, tree', c.base, c.npwm, id)
    ensures AllFound(tree', chips[id := c])
  {
    forall k | k in chips ensures Found(tree', k, chips[k]) {
      assert Found(tree, k, chips[k]);
      forall n | chips[k].base <= n < chips[k].base + chips[k].npwm ensures tree'[n] == tree[n] {
        assert n in tree && bitmap[n];
        assert OnTree(tree, n, tree'[n]);
      }
    }
  }

  lemma AddKeeps(
      bitmap: seq<bool>, tree: map<int, Pwm>, chips: map<ChipId, Chip>,
      bitmap': seq<bool>, tree': map<int, Pwm>, id: ChipId, c: Chip)
    requires Consistent(bitmap, tree, chips) && id !in chips && FreeRun(bitmap, c.base, c.npwm)
    requires BitsSet(bitmap, bitmap', c.base, c.npwm, true) && Inserted(tree, tree', c.base, c.npwm, id)
    ensures Consistent(bitmap', tree', chips[id := c])
  {
    AddPlaced(tree, chips, tree', id, c);
    AddFound(bitmap, tree, chips, tree', id, c);
  }

  lemma RemoveKeeps(
      bitmap: seq<bool>, tree: map<int, Pwm>, chips: map<ChipId, Chip>,
      bitmap': seq<bool>, tree': map<int, Pwm>, id: ChipId)
    requires Consistent(bitmap, tree, chips) && id in chips
    requires BitsSet(bitmap, bitmap', chips[id].base, chips[id].npwm, false)
    requires Deleted(tree, tree', chips[id].base, chips[id].npwm)
    ensures Consistent(bitmap', tree', chips - {id})
    ensures forall n <- tree :: n in tree' <==> tree[n].chip != id
  {
    var c := chips[id];
    assert Found(tree, id, c);
    forall n | n in tree ensures n in tree' <==> tree[n].chip != id {
      assert Placed(chips, n, tree[n]);
    }
    forall k | k in chips && k != id ensures Found(tree', k, chips[k]) {
      assert Found(tree, k, chips[k]);
    }
    forall n | n in tree' ensures Placed(chips - {id}, n, tree'[n]) {
      assert OnTree(tree, n, tree'[n]) && Placed(chips, n, tree[n]);
    }
  }

  lemma RangeInBounds(bitmap: seq<bool>, tree: map<int, Pwm>, chips: map<ChipId, Chip>, id: ChipId)
    requires Consistent(bitmap, tree, chips) && id in chips && chips[id].npwm > 0
    ensures chips[id].base + chips[id].npwm <= MAX_PWMS
  {
    assert Found(tree, id, chips[id]);
    assert chips[id].base + chips[id].npwm - 1 in tree;
  }

  class Core {
    var bitmap: seq<bool>
    var tree: map<int, Pwm>
    var chips: map<ChipId, Chip>

    ghost predicate Valid()
      reads this
    {
      Consistent(bitmap, tree, chips)
    }

    constructor ()
      ensures Valid() && chips == map[] && tree == map[]
    {
      bitmap := seq(MAX_PWMS, _ => false);
      tree, chips := map[], map[];
    }

    /** `bitmap_find_next_zero_area`: the lowest free run at or after `from`, or a number past the end. */
    method FindArea(from: nat, count: nat) returns (start: nat)
      requires count > 0 && from < |bitmap|
      ensures start + count <= |bitmap| ==>
        start >= from && FreeRun(bitmap, start, count)
        && forall s :: from <= s < start ==> !FreeRun(bitmap, s, count)
      ensures start + count > |bitmap| ==> start > |bitmap| && forall s :: s >= from ==> !FreeRun(bitmap, s, count)
    {
      start := from;
      while true
        invariant from <= start
        invariant forall s :: from <= s < start ==> !FreeRun(bitmap, s, count)
        decreases |bitmap| - start
      {
        if start + count > |bitmap| {
          return start + count + |bitmap|;
        }
        var i := start;
        while i < start + count && !bitmap[i]
          invariant start <= i <= start + count
          invariant forall k :: start <= k < i ==> !bitmap[k]
        {
          i := i + 1;
        }
        if i == start + count {
          return;
        }
        forall s | start <= s <= i ensures !FreeRun(bitmap, s, count) {
          if s + count <= |bitmap| {
            assert s <= i < s + count;
          }
        }
        start := i + 1;
      }
    }

    /**
     `alloc_pwms`: a fixed base succeeds exactly when its whole range is free and in bounds; a dynamic base is the
     lowest free run, and fails only when there is none.
     */
    method Alloc(base: int, count: nat) returns (ret: int)
      requires Valid() && count > 0
      ensures base >= MAX_PWMS ==> ret == -EINVAL
      ensures 0 <= base < MAX_PWMS ==> ret == if FreeRun(bitmap, base, count) then base else -EEXIST
      ensures base < 0 && ret >= 0 ==>
        FreeRun(bitmap, ret, count) && forall s :: 0 <= s < ret ==> !FreeRun(bitmap, s, count)
      ensures base < 0 && ret < 0 ==> ret == -ENOSPC && forall s :: 0 <= s ==> !FreeRun(bitmap, s, count)
    {
      if base >= MAX_PWMS {
        return -EINVAL;
      }
      var from := if base >= 0 then base else 0;
      var start := FindArea(from, count);
      if base >= 0 && start != base {
        return -EEXIST;
      }
      if start + count > MAX_PWMS {
        return -ENOSPC;
      }
      return start;
    }

    /** `bitmap_set` and `bitmap_clear`. */
    static method WriteBits(bits: seq<bool>, first: nat, count: nat, value: bool) returns (r: seq<bool>)
      requires count > 0 ==> first + count <= |bits|
      ensures BitsSet(bits, r, first, count, value)
    {
      r := bits;
      for i := 0 to count
        invariant BitsSet(bits, r, first, i, value)
      {
        r := r[first + i := value];
      }
    }

    static method InsertRange(tree: map<int, Pwm>, first: nat, count: nat, id: ChipId) returns (r: map<int, Pwm>)
      requires forall n :: first <= n < first + count ==> n !in tree
      ensures Inserted(tree, r, first, count, id)
    {
      r := tree;
      for i := 0 to count
        invariant Inserted(tree, r, first, i, id)
      {
        r := r[first + i := Pwm(id, i)];
      }
    }

    static method DeleteRange(tree: map<int, Pwm>, first: nat, count: nat) returns (r: map<int, Pwm>)
      ensures Deleted(tree, r, first, count)
    {
      r := tree;
      for i := 0 to count
        invariant Deleted(tree, r, first, i)
      {
        r := r - {first + i};
      }
    }

    /** `pwmchip_add_with_polarity`. */
    method Add(id: ChipId, base: int, npwm: nat) returns (ret: int)
      requires Valid() && id !in chips
      modifies this
      ensures Valid()
      ensures ret != 0 ==> chips == old(chips) && tree == old(tree) && bitmap == old(bitmap)
      ensures npwm == 0 ==> ret == -EINVAL
      ensures npwm > 0 && base >= 0 ==> (ret == 0 <==> FreeRun(old(bitmap), base, npwm))
      ensures npwm > 0 && base < 0 ==> (ret == 0 <==> exists s :: FreeRun(old(bitmap), s, npwm))
      ensures npwm > 0 && ret != 0 ==> ret == if base < 0 then -ENOSPC else if base < MAX_PWMS then -EEXIST else -EINVAL
      ensures ret == 0 ==>
        && id in chips && chips == old(chips)[id := Chip(chips[id].base, npwm)]
        && FreeRun(old(bitmap), chips[id].base, npwm)
        && (base >= 0 ==> chips[id].base == base)
        && (base < 0 ==> forall s :: 0 <= s < chips[id].base ==> !FreeRun(old(bitmap), s, npwm))
    {
      if npwm == 0 {
        return -EINVAL;
      }
      ret := Alloc(base, npwm);
      if ret < 0 {
        return;
      }
      var first: nat := ret;
      var t := InsertRange(tree, first, npwm, id);
      var bits := WriteBits(bitmap, first, npwm, true);
      AddKeeps(bitmap, tree, chips, bits, t, id, Chip(first, npwm));
      bitmap, tree, chips := bits, t, chips[id := Chip(first, npwm)];
      ret := 0;
    }

    /** `pwmchip_remove`, with the channels still requested by someone. */
    method Remove(id: ChipId, requested: set<Pwm>) returns (ret: int)
      requires Valid() && id in chips
      modifies this
      ensures Valid()
      ensures ret == if exists h: nat :: h < old(chips)[id].npwm && Pwm(id, h) in requested then -EBUSY else 0
      ensures ret != 0 ==> chips == old(chips) && tree == old(tree) && bitmap == old(bitmap)
      ensures ret == 0 ==> chips == old(chips) - {id}
      ensures ret == 0 ==> forall n <- old(tree) :: n in tree <==> old(tree)[n].chip != id
      ensures ret == 0 ==> forall n <- tree :: OnTree(old(tree), n, tree[n])
    {
      var first, npwm := chips[id].base, chips[id].npwm;
      for i := 0 to npwm
        invariant forall h: nat | h < i :: Pwm(id, h) !in requested
      {
        if Pwm(id, i) in requested {
          return -EBUSY;
        }
      }
      if npwm > 0 {
        RangeInBounds(bitmap, tree, chips, id);
      }
      var t := DeleteRange(tree, first, npwm);
      var bits := WriteBits(bitmap, first, npwm, false);
      RemoveKeeps(bitmap, tree, chips, bits, t, id);
      bitmap, tree, chips := bits, t, chips - {id};
      ret := 0;
    }
  }
}
