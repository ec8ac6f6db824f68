/** driver::virtio: the descriptor allocator of a virtqueue (one bit per descriptor in
    `bit_map_`) and the block device's drain of the used ring. */
module Virtio {

  /** `queue_buffer_size`: descriptors per queue, and bytes of bitmap for them. */
  const QueueSize: nat := 32
  const MapBytes: nat := 4

  /** A descriptor of the split virtqueue (`struct virtq_desc`). */
  datatype Desc = Desc(addr: nat, len: nat, flags: nat, next: nat)

  /** The all-zero descriptor FreeDesc leaves behind. */
  const Cleared := Desc(0, 0, 0, 0)

  /** `1u << k` within a bitmap byte. */
  function Mask(k: nat): (m: bv8)
    requires k < 8
  {
    (1 as bv8) << k
  }

  /** Descriptor `i` is allocated. */
  predicate InUse(m: seq<bv8>, i: nat)
    requires |m| == MapBytes && i < QueueSize
  {
    m[i / 8] & Mask(i % 8) != 0
  }

  /** The bitmap with the bit of descriptor `i` set. */
  function Mark(m: seq<bv8>, i: nat): (r: seq<bv8>)
    requires |m| == MapBytes && i < QueueSize
    ensures |r| == MapBytes
  {
    m[i / 8 := m[i / 8] | Mask(i % 8)]
  }

  /** The bitmap with the bit of descriptor `i` cleared. */
  function Unmark(m: seq<bv8>, i: nat): (r: seq<bv8>)
    requires |m| == MapBytes && i < QueueSize
    ensures |r| == MapBytes
  {
    m[i / 8 := m[i / 8] & !Mask(i % 8)]
  }

  lemma SetBit(b: bv8, k: nat, j: nat)
    requires k < 8 && j < 8
    ensures (b | Mask(k)) & Mask(j) != 0 <==> j == k || b & Mask(j) != 0
  {
  }

  lemma ClearBit(b: bv8, k: nat, j: nat)
    requires k < 8 && j < 8
    ensures (b & !Mask(k)) & Mask(j) != 0 <==> j != k && b & Mask(j) != 0
  {
  }

  /** Marking sets the bit of `i` and no other. */
  lemma MarkBits(m: seq<bv8>, i: nat)
    requires |m| == MapBytes && i < QueueSize
    ensures forall j :: 0 <= j < QueueSize ==> (InUse(Mark(m, i), j) <==> j == i || InUse(m, j))
  {
    forall j | 0 <= j < QueueSize
      ensures InUse(Mark(m, i), j) <==> j == i || InUse(m, j)
    {
      if j / 8 == i / 8 {
        SetBit(m[i / 8], i % 8, j % 8);
      }
    }
  }

  /** Unmarking clears the bit of `i` and no other. */
  lemma UnmarkBits(m: seq<bv8>, i: nat)
    requires |m| == MapBytes && i < QueueSize
    ensures forall j :: 0 <= j < QueueSize ==> (InUse(Unmark(m, i), j) <==> j != i && InUse(m, j))
  {
    forall j | 0 <= j < QueueSize
      ensures InUse(Unmark(m, i), j) <==> j != i && InUse(m, j)
    {
      if j / 8 == i / 8 {
        ClearBit(m[i / 8], i % 8, j % 8);
      }
    }
  }

  /** Freeing a descriptor just allocated gives back the bitmap from before. */
  lemma UnmarkMark(m: seq<bv8>, i: nat)
    requires |m| == MapBytes && i < QueueSize && !InUse(m, i)
    ensures Unmark(Mark(m, i), i) == m
  {
    var b := m[i / 8];
    assert (b | Mask(i % 8)) & !Mask(i % 8) == b;
  }

  /** The panic test of FreeDesc as written: `(byte & (idx % 8)) == 0`, which masks with
      the bit number rather than the bit. */
  predicate PanicsAsWritten(m: seq<bv8>, idx: nat)
    requires |m| == MapBytes
  {
    idx >= QueueSize || m[idx / 8] & ((idx % 8) as bv8) == 0
  }

  /** The panic test as evidently intended: the index is out of range or not in use. */
  predicate Panics(m: seq<bv8>, idx: nat)
    requires |m| == MapBytes
  {
    idx >= QueueSize || !InUse(m, idx)
  }

  /** With only descriptor 0 allocated, freeing it panics, while freeing descriptor 1,
      which is free, goes through. */
  lemma FreeDescMaskWrong()
    ensures var m: seq<bv8> := [1, 0, 0, 0];
      InUse(m, 0) && PanicsAsWritten(m, 0) && !Panics(m, 0) &&
      !InUse(m, 1) && !PanicsAsWritten(m, 1) && Panics(m, 1)
  {
  }

  /** Every multiple of 8 panics whatever the bitmap holds. */
  lemma MultipleOfEightPanics(m: seq<bv8>, idx: nat)
    requires |m| == MapBytes && idx % 8 == 0
    ensures PanicsAsWritten(m, idx)
  {
  }

  /** The bitmap after the frees of `list`, in order, each clearing its descriptor's bit;
      an index past the table clears nothing. */
  function Freed(m: seq<bv8>, list: seq<nat>): (r: seq<bv8>)
    requires |m| == MapBytes
    ensures |r| == MapBytes
  {
    if list == [] then m
    else
      var p := Freed(m, list[..|list| - 1]);
      var i := list[|list| - 1];
      if i < QueueSize then Unmark(p, i) else p
  }

  /** After the frees exactly the descriptors that were in use and are not listed stay
      in use. */
  lemma {:induction false} FreedBits(m: seq<bv8>, list: seq<nat>, j: nat)
    requires |m| == MapBytes && j < QueueSize
    ensures InUse(Freed(m, list), j) <==> InUse(m, j) && j !in list
    decreases |list|
  {
    if list != [] {
      var init := list[..|list| - 1];
      var i := list[|list| - 1];
      assert list == init + [i];
      FreedBits(m, init, j);
      if i < QueueSize {
        UnmarkBits(Freed(m, init), i);
      }
    }
  }

  /** Whether the free of `list[k]` panics, given that the earlier entries were freed:
      with the test as written or with the corrected one. */
  predicate PanicsAt(m: seq<bv8>, list: seq<nat>, k: nat, asWritten: bool)
    requires |m| == MapBytes && k < |list|
  {
    var cur := Freed(m, list[..k]);
    if asWritten then PanicsAsWritten(cur, list[k]) else Panics(cur, list[k])
  }

  /** The first entry from `k` on whose free panics, or `|list|` when none does. */
  function FirstPanic(m: seq<bv8>, list: seq<nat>, k: nat, asWritten: bool): (r: nat)
    requires |m| == MapBytes && k <= |list|
    ensures k <= r <= |list|
    ensures r < |list| ==> PanicsAt(m, list, r, asWritten)
    ensures forall q :: k <= q < r ==> !PanicsAt(m, list, q, asWritten)
    decreases |list| - k
  {
    if k == |list| then k
    else if PanicsAt(m, list, k, asWritten) then k
    else FirstPanic(m, list, k + 1, asWritten)
  }

  /** The corrected free of `list[k]` panics exactly when the index is past the table, was
      not in use to begin with, or was already freed earlier in the list. */
  lemma PanicsAtMeans(m: seq<bv8>, list: seq<nat>, k: nat)
    requires |m| == MapBytes && k < |list|
    ensures PanicsAt(m, list, k, false) <==>
      list[k] >= QueueSize || !InUse(m, list[k]) || list[k] in list[..k]
  {
    if list[k] < QueueSize {
      FreedBits(m, list[..k], list[k]);
    }
  }

  /** The corrected list free goes through exactly when the list names distinct
      descriptors, all in use. */
  lemma FreeListNoPanic(m: seq<bv8>, list: seq<nat>)
    requires |m| == MapBytes
    ensures FirstPanic(m, list, 0, false) == |list| <==>
      (forall k :: 0 <= k < |list| ==> list[k] < QueueSize && InUse(m, list[k])) &&
      (forall k, q :: 0 <= q < k < |list| ==> list[q] != list[k])
  {
    forall k | 0 <= k < |list|
      ensures PanicsAt(m, list, k, false) <==>
        list[k] >= QueueSize || !InUse(m, list[k]) || list[k] in list[..k]
    {
      PanicsAtMeans(m, list, k);
    }
    var n := FirstPanic(m, list, 0, false);
    if n < |list| && list[n] < QueueSize && InUse(m, list[n]) {
      var q :| 0 <= q < n && list[..n][q] == list[n];
      assert list[q] == list[n];
    }
  }

  /** As written, freeing the list [0] with only descriptor 0 allocated panics at once,
      while the corrected free goes through. */
  lemma FreeListMaskWrong()
    ensures var m: seq<bv8> := [1, 0, 0, 0];
      FirstPanic(m, [0], 0, true) == 0 && FirstPanic(m, [0], 0, false) == 1
  {
    var m: seq<bv8> := [1, 0, 0, 0];
    assert [0][..0] == [];
    assert PanicsAt(m, [0], 0, true);
    assert !PanicsAt(m, [0], 0, false);
  }

  /** One more free in the list walk: the bitmap and the cleared descriptors grow by the
      entry `list[i]`. */
  lemma FreeStep(m: seq<bv8>, list: seq<nat>, i: nat)
    requires |m| == MapBytes && i < |list| && list[i] < QueueSize
    ensures Freed(m, list[..i + 1]) == Unmark(Freed(m, list[..i]), list[i])
    ensures forall j :: j in list[..i + 1] <==> j in list[..i] || j == list[i]
  {
    var l := list[..i + 1];
    assert l[..|l| - 1] == list[..i];
    assert l[|l| - 1] == list[i];
    assert l == list[..i] + [list[i]];
  }

  /** The flags left after `count` steps of the drain from counter value `pos`: each
      step clears the flag of the descriptor named by ring entry `pos % 32`, then
      advances the 32-bit counter. */
  function Drain(w: seq<bool>, ring: seq<nat>, pos: nat, count: nat): (r: seq<bool>)
    requires |ring| == QueueSize
    requires forall k :: 0 <= k < QueueSize ==> ring[k] < |w|
    ensures |r| == |w|
    decreases count
  {
    if count == 0 then w
    else Drain(w[ring[pos % QueueSize] := false], ring, (pos + 1) % 0x1_0000_0000, count - 1)
  }

  /** The ring entry the drain reads at step `k` from counter value `pos`. */
  function Slot(ring: seq<nat>, pos: nat, k: nat): nat
    requires |ring| == QueueSize
  {
    ring[(pos + k) % QueueSize]
  }

  /** After a drain a flag is set exactly when it was set and no entry the drain read
      names it. */
  lemma {:induction false} DrainFlags(w: seq<bool>, ring: seq<nat>, pos: nat, count: nat, j: nat)
    requires |ring| == QueueSize
    requires forall k :: 0 <= k < QueueSize ==> ring[k] < |w|
    requires j < |w|
    ensures Drain(w, ring, pos, count)[j] <==>
      w[j] && forall k :: 0 <= k < count ==> Slot(ring, pos, k) != j
    decreases count
  {
    if count > 0 {
      var next := (pos + 1) % 0x1_0000_0000;
      DrainFlags(w[ring[pos % QueueSize] := false], ring, next, count - 1, j);
      forall k | 0 <= k < count - 1
        ensures Slot(ring, next, k) == Slot(ring, pos, k + 1)
      {
        Residue32(pos + 1, k);
      }
      assert Slot(ring, pos, 0) == ring[pos % QueueSize];
      if forall k :: 0 <= k < count ==> Slot(ring, pos, k) != j {
        forall k | 0 <= k < count - 1
          ensures Slot(ring, next, k) != j
        {
          assert Slot(ring, pos, k + 1) != j;
        }
      }
      if Slot(ring, pos, 0) != j && forall k :: 0 <= k < count - 1 ==> Slot(ring, next, k) != j {
        forall k | 0 <= k < count
          ensures Slot(ring, pos, k) != j
        {
          if k > 0 {
            assert Slot(ring, next, k - 1) != j;
          }
        }
      }
    }
  }

  /** 32 divides 2^32, so reducing the counter first does not change its ring slot. */
  lemma Residue32(x: nat, k: nat)
    ensures (x % 0x1_0000_0000 + k) % 32 == (x + k) % 32
  {
    var q, r := x / 0x1_0000_0000, x % 0x1_0000_0000;
    var t := q * 0x800_0000;
    assert x + k == 32 * t + (r + k);
    ShiftMod32(r + k, t);
  }

  lemma ShiftMod32(a: nat, t: nat)
    ensures (32 * t + a) % 32 == a % 32
  {
  }

  /** How many steps of +1 modulo `m` lead from `a` to `b`. */
  function Distance(a: nat, b: nat, m: nat): (d: nat)
    requires a < m && b < m
    ensures d < m
    ensures d == 0 <==> a == b
  {
    if a <= b then b - a else m - a + b
  }

  lemma DistanceStep(a: nat, b: nat, m: nat)
    requires a < m && b < m && a != b
    ensures Distance((a + 1) % m, b, m) == Distance(a, b, m) - 1
  {
    if a + 1 < m {
      assert (a + 1) % m == a + 1;
    } else {
      assert (a + 1) % m == 0;
    }
  }

  /** Advancing the 32-bit counter advances its 16-bit residue. */
  lemma Residue16(x: nat)
    requires x < 0x1_0000_0000
    ensures (x + 1) % 0x1_0000_0000 % 0x1_0000 == (x % 0x1_0000 + 1) % 0x1_0000
  {
  }

  /** A drain as written runs until the 32-bit counter equals the 16-bit `used.idx`, so
      after `used.idx` wraps past 65535 it runs about 2^32 steps instead of one. */
  lemma DrainAfterWrap()
    ensures Distance(65535, 0, 0x1_0000_0000) == 0x1_0000_0000 - 65535
    ensures Distance(65535 % 0x1_0000, 0, 0x1_0000) == 1
  {
  }

  /** Before the 16-bit index first wraps, the two drains take the same steps. */
  lemma DrainsAgree(last: nat, usedIdx: nat)
    requires last <= usedIdx < 0x1_0000
    ensures Distance(last, usedIdx, 0x1_0000_0000) == Distance(last % 0x1_0000, usedIdx, 0x1_0000)
  {
  }

  class Device {
    /** `bit_map_`, the descriptor table `queue->desc`, the `waiting_flag`s of
        `internal_data_` and the block device's 32-bit `last_seen_used_idx_`. */
    var bitMap: array<bv8>
    var desc: array<Desc>
    var waiting: array<bool>
    var lastSeenUsed: nat

    ghost predicate Valid()
      reads this
    {
      bitMap.Length == MapBytes && desc.Length == QueueSize && waiting.Length == QueueSize &&
      lastSeenUsed < 0x1_0000_0000
    }

    /** A device with no descriptor allocated and nothing seen in the used ring. */
    constructor ()
      ensures Valid() && fresh(bitMap) && fresh(desc) && fresh(waiting)
      ensures forall i :: 0 <= i < QueueSize ==> !InUse(bitMap[..], i)
      ensures lastSeenUsed == 0
    {
      bitMap := new bv8[MapBytes](_ => 0);
      desc := new Desc[QueueSize](_ => Cleared);
      waiting := new bool[QueueSize](_ => false);
      lastSeenUsed := 0;
    }

    /** `AllocDesc()`: the lowest free descriptor, now marked in use, or -1 when all 32 are
        taken; no other bit changes. */
    method AllocDesc() returns (r: int)
      requires Valid()
      modifies bitMap
      ensures r == -1 <==> forall i :: 0 <= i < QueueSize ==> InUse(old(bitMap[..]), i)
      ensures r == -1 ==> bitMap[..] == old(bitMap[..])
      ensures r != -1 ==> 0 <= r < QueueSize && !InUse(old(bitMap[..]), r)
      ensures r != -1 ==> forall j :: 0 <= j < r ==> InUse(old(bitMap[..]), j)
      ensures r != -1 ==> bitMap[..] == Mark(old(bitMap[..]), r)
      ensures r != -1 ==> forall j :: 0 <= j < QueueSize ==>
        (InUse(bitMap[..], j) <==> j == r || InUse(old(bitMap[..]), j))
    {
      var i := 0;
      while i < QueueSize
        invariant i <= QueueSize && bitMap[..] == old(bitMap[..])
        invariant forall j :: 0 <= j < i ==> InUse(bitMap[..], j)
      {
        if bitMap[i / 8] & Mask(i % 8) == 0 {
          ghost var m := bitMap[..];
          assert !InUse(m, i);
          MarkBits(m, i);
          bitMap[i / 8] := bitMap[i / 8] | Mask(i % 8);
          return i;
        }
        i := i + 1;
      }
      return -1;
    }

    /** `FreeDesc(desc_index)` as written: panics past the table or when the byte masked
        with `idx % 8` is zero; otherwise clears the descriptor's bit and zeroes the
        descriptor. A panic stops the kernel, so the state is left as it was. */
    method FreeDescAsWritten(idx: nat) returns (panicked: bool)
      requires Valid()
      modifies bitMap, desc
      ensures panicked <==> PanicsAsWritten(old(bitMap[..]), idx)
      ensures panicked ==> bitMap[..] == old(bitMap[..]) && desc[..] == old(desc[..])
      ensures !panicked ==> bitMap[..] == Unmark(old(bitMap[..]), idx)
      ensures !panicked ==> desc[..] == old(desc[..])[idx := Cleared]
    {
      if idx >= QueueSize {
        return true;
      }
      if bitMap[idx / 8] & ((idx % 8) as bv8) == 0 {
        return true;
      }
      bitMap[idx / 8] := bitMap[idx / 8] & !Mask(idx % 8);
      desc[idx] := Cleared;
      return false;
    }

    /** `FreeDesc(desc_index)` as evidently intended: panics past the table or when the
        descriptor is not in use; otherwise clears its bit, and no other, and zeroes it. */
    method FreeDesc(idx: nat) returns (panicked: bool)
      requires Valid()
      modifies bitMap, desc
      ensures panicked <==> Panics(old(bitMap[..]), idx)
      ensures panicked ==> bitMap[..] == old(bitMap[..]) && desc[..] == old(desc[..])
      ensures !panicked ==> bitMap[..] == Unmark(old(bitMap[..]), idx)
      ensures !panicked ==> forall j :: 0 <= j < QueueSize ==>
        (InUse(bitMap[..], j) <==> j != idx && InUse(old(bitMap[..]), j))
      ensures !panicked ==> desc[..] == old(desc[..])[idx := Cleared]
    {
      if idx >= QueueSize {
        return true;
      }
      if bitMap[idx / 8] & Mask(idx % 8) == 0 {
        return true;
      }
      UnmarkBits(bitMap[..], idx);
      bitMap[idx / 8] := bitMap[idx / 8] & !Mask(idx % 8);
      desc[idx] := Cleared;
      return false;
    }

    /** `FreeDesc(desc_list)` as written: frees each entry in turn with
        `FreeDescAsWritten` and stops at the first panic, keeping the frees before it. */
    method FreeDescsAsWritten(list: seq<nat>) returns (panicked: bool)
      requires Valid()
      modifies bitMap, desc
      ensures var n := FirstPanic(old(bitMap[..]), list, 0, true);
        (panicked <==> n < |list|) && bitMap[..] == Freed(old(bitMap[..]), list[..n]) &&
        forall j :: 0 <= j < QueueSize ==> desc[j] == if j in list[..n] then Cleared else old(desc[j])
    {
      var i := 0;
      panicked := false;
      while i < |list|
        invariant i <= |list|
        invariant FirstPanic(old(bitMap[..]), list, 0, true) == FirstPanic(old(bitMap[..]), list, i, true)
        invariant bitMap[..] == Freed(old(bitMap[..]), list[..i])
        invariant forall j :: 0 <= j < QueueSize ==> desc[j] == if j in list[..i] then Cleared else old(desc[j])
      {
        panicked := FreeDescAsWritten(list[i]);
        if panicked {
          return;
        }
        FreeStep(old(bitMap[..]), list, i);
        i := i + 1;
      }
      assert list[..i] == list;
    }

    /** `FreeDesc(desc_list)` with the corrected `FreeDesc`: the same walk, where a panic
        comes exactly at the first entry that is out of range, not in use, or repeated. */
    method FreeDescs(list: seq<nat>) returns (panicked: bool)
      requires Valid()
      modifies bitMap, desc
      ensures var n := FirstPanic(old(bitMap[..]), list, 0, false);
        (panicked <==> n < |list|) && bitMap[..] == Freed(old(bitMap[..]), list[..n]) &&
        forall j :: 0 <= j < QueueSize ==> desc[j] == if j in list[..n] then Cleared else old(desc[j])
    {
      var i := 0;
      panicked := false;
      while i < |list|
        invariant i <= |list|
        invariant FirstPanic(old(bitMap[..]), list, 0, false) == FirstPanic(old(bitMap[..]), list, i, false)
        invariant bitMap[..] == Freed(old(bitMap[..]), list[..i])
        invariant forall j :: 0 <= j < QueueSize ==> desc[j] == if j in list[..i] then Cleared else old(desc[j])
      {
        panicked := FreeDesc(list[i]);
        if panicked {
          return;
        }
        FreeStep(old(bitMap[..]), list, i);
        i := i + 1;
      }
      assert list[..i] == list;
    }

    /** `ProcessInterrupt()` as written: clears the waiting flag of the descriptor each
        used-ring entry names until the 32-bit `last_seen_used_idx_` equals the 16-bit
        `used.idx`. The ring is device memory, so `usedIdx` and `ring` (the `id` of each of
        its 32 entries) are inputs; the interrupt acknowledgement is left out. */
    method ProcessInterruptAsWritten(usedIdx: nat, ring: seq<nat>)
      requires Valid() && usedIdx < 0x1_0000 && |ring| == QueueSize
      requires forall k :: 0 <= k < QueueSize ==> ring[k] < QueueSize
      modifies this, waiting
      ensures Valid() && lastSeenUsed == usedIdx
      ensures bitMap == old(bitMap) && desc == old(desc) && waiting == old(waiting)
      ensures waiting[..] ==
        Drain(old(waiting[..]), ring, old(lastSeenUsed), Distance(old(lastSeenUsed), usedIdx, 0x1_0000_0000))
    {
      while lastSeenUsed != usedIdx
        invariant Valid() && bitMap == old(bitMap) && desc == old(desc) && waiting == old(waiting)
        invariant Drain(waiting[..], ring, lastSeenUsed, Distance(lastSeenUsed, usedIdx, 0x1_0000_0000)) ==
          Drain(old(waiting[..]), ring, old(lastSeenUsed), Distance(old(lastSeenUsed), usedIdx, 0x1_0000_0000))
        decreases Distance(lastSeenUsed, usedIdx, 0x1_0000_0000)
      {
        DistanceStep(lastSeenUsed, usedIdx, 0x1_0000_0000);
        var id := ring[lastSeenUsed % QueueSize];
        waiting[id] := false;
        lastSeenUsed := (lastSeenUsed + 1) % 0x1_0000_0000;
      }
    }

    /** `ProcessInterrupt()` as evidently intended: the counter is compared, like
        `used.idx`, modulo 2^16. */
    method ProcessInterrupt(usedIdx: nat, ring: seq<nat>)
      requires Valid() && usedIdx < 0x1_0000 && |ring| == QueueSize
      requires forall k :: 0 <= k < QueueSize ==> ring[k] < QueueSize
      modifies this, waiting
      ensures Valid() && lastSeenUsed % 0x1_0000 == usedIdx
      ensures bitMap == old(bitMap) && desc == old(desc) && waiting == old(waiting)
      ensures waiting[..] == Drain(old(waiting[..]), ring, old(lastSeenUsed),
        Distance(old(lastSeenUsed) % 0x1_0000, usedIdx, 0x1_0000))
    {
      while lastSeenUsed % 0x1_0000 != usedIdx
        invariant Valid() && bitMap == old(bitMap) && desc == old(desc) && waiting == old(waiting)
        invariant Drain(waiting[..], ring, lastSeenUsed, Distance(lastSeenUsed % 0x1_0000, usedIdx, 0x1_0000)) ==
          Drain(old(waiting[..]), ring, old(lastSeenUsed), Distance(old(lastSeenUsed) % 0x1_0000, usedIdx, 0x1_0000))
        decreases Distance(lastSeenUsed % 0x1_0000, usedIdx, 0x1_0000)
      {
        DistanceStep(lastSeenUsed % 0x1_0000, usedIdx, 0x1_0000);
        Residue16(lastSeenUsed);
        var id := ring[lastSeenUsed % QueueSize];
        waiting[id] := false;
        lastSeenUsed := (lastSeenUsed + 1) % 0x1_0000_0000;
      }
    }
  }
}
