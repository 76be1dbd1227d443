/**
 The rts3917 pin exclusion bits.  `Request` and `Free` say what `rts_pmx_request` and `rts_pmx_free`
 mean as updates of a set of held pins; the class keeps the set as the bits of two 64-bit words, as the driver does.
 */
module Rts3917 {
  import opened Wrappers

  const MAX_OFFSET: nat := 119

  function Request(mask: set<nat>, offset: nat): (set<nat>, int) {
    if offset > MAX_OFFSET then (mask, -EINVAL)
    else if offset in mask then (mask, -EBUSY)
    else (mask + {offset}, 0)
  }

  function Free(mask: set<nat>, offset: nat): (set<nat>, int) {
    if offset > MAX_OFFSET then (mask, -EINVAL)
    else if offset in mask then (mask - {offset}, 0)
    else (mask, -EINVAL)
  }

  /** Word and bit of an offset. */
  function Slot(offset: nat): (nat, nat) {
    if offset > 63 then (1, offset - 64) else (0, offset)
  }

  class RtsPinctrl {
    /** `pinsmask[i, j]` is bit `j` of word `i`. */
    const pinsmask: array2<bool>

    ghost predicate Valid() {
      pinsmask.Length0 == 2 && pinsmask.Length1 == 64
    }

    ghost function Bits(): set<nat>
      requires Valid()
      reads pinsmask
    {
      set offset: nat | offset < 128 && pinsmask[Slot(offset).0, Slot(offset).1]
    }

    constructor ()
      ensures Valid() && fresh(pinsmask) && Bits() == {}
    {
      pinsmask := new bool[2, 64]((_, _) => false);
    }

    method PmxRequest(offset: nat) returns (status: int)
      requires Valid()
      modifies pinsmask
      ensures (Bits(), status) == Request(old(Bits()), offset)
    {
      if offset > MAX_OFFSET {
        return -EINVAL;
      }
      var (i, j) := Slot(offset);
      if pinsmask[i, j] {
        return -EBUSY;
      }
      pinsmask[i, j] := true;
      assert Bits() == old(Bits()) + {offset};
      return 0;
    }

    method PmxFree(offset: nat) returns (status: int)
      requires Valid()
      modifies pinsmask
      ensures (Bits(), status) == Free(old(Bits()), offset)
    {
      if offset > MAX_OFFSET {
        return -EINVAL;
      }
      var (i, j) := Slot(offset);
      if pinsmask[i, j] {
        pinsmask[i, j] := false;
        assert Bits() == old(Bits()) - {offset};
        return 0;
      } else {
        return -EINVAL;
      }
    }
  }
}
