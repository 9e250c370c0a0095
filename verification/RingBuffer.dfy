/**
 The single-producer/single-consumer ring: free-running `size_t` counters over a power-of-two
 array, filled and emptied in two segments. The class is the sequential code; the module
 SpscRing takes the same code apart into interleaved steps.
 */
module RingBuffers {
  import opened Bits
  import opened Common

  /** The slot a counter value names. */
  function Slot(counter: nat, size: nat): (s: nat)
    requires size > 0
    ensures s < size
  {
    counter % size
  }

  /** The `n` elements held from counter value `start` on. */
  function Window<T>(slots: seq<T>, start: nat, n: nat): (w: seq<T>)
    requires |slots| > 0
    ensures |w| == n
    ensures forall i :: 0 <= i < n ==> w[i] == slots[Slot(start + i, |slots|)]
  {
    seq(n, i requires 0 <= i < n => slots[Slot(start + i, |slots|)])
  }

  /** The slot the two-segment loops use for their k-th element. */
  function SlotAt(offset: nat, k: nat, size: nat): int {
    if offset + k < size then offset + k else offset + k - size
  }

  lemma SlotAtIsMod(start: nat, k: nat, size: nat)
    requires k < size
    ensures SlotAt(Slot(start, size), k, size) == Slot(start + k, size)
  {
    var offset, q := start % size, start / size;
    assert start == q * size + offset;
    if offset + k < size {
      ModSplit(start + k, q, offset + k, size);
    } else {
      assert (q + 1) * size == q * size + size;
      ModSplit(start + k, q + 1, offset + k - size, size);
    }
  }

  /** `after` holds `items` in the slots from counter `start` on and agrees with `before` elsewhere. */
  ghost predicate Filled<T>(before: seq<T>, after: seq<T>, start: nat, items: seq<T>) {
    && 0 < |before| == |after|
    && |items| <= |before|
    && (forall k :: 0 <= k < |items| ==> after[SlotAt(Slot(start, |before|), k, |before|)] == items[k])
    && forall s :: 0 <= s < |before|
         && (forall k :: 0 <= k < |items| ==> s != SlotAt(Slot(start, |before|), k, |before|))
         ==> after[s] == before[s]
  }

  lemma WindowFilled<T>(before: seq<T>, after: seq<T>, start: nat, n: nat, items: seq<T>)
    requires Filled(before, after, start + n, items)
    requires n + |items| <= |before|
    ensures Window(after, start, n + |items|) == Window(before, start, n) + items
  {
    var size := |before|;
    forall i | 0 <= i < n + |items|
      ensures Window(after, start, n + |items|)[i] == (Window(before, start, n) + items)[i]
    {
      if i < n {
        var s := Slot(start + i, size);
        forall k {:trigger SlotAt(Slot(start + n, size), k, size)} | 0 <= k < |items|
          ensures s != SlotAt(Slot(start + n, size), k, size)
        {
          SlotAtIsMod(start + n, k, size);
          DistinctSlots(start + i, start + n + k, size);
        }
      } else {
        SlotAtIsMod(start + n, i - n, size);
      }
    }
  }

  lemma WindowDrop<T>(slots: seq<T>, start: nat, n: nat, count: nat)
    requires |slots| > 0 && count <= n
    ensures Window(slots, start, n)[count..] == Window(slots, start + count, n - count)
  {
    hide Slot;
    forall i | 0 <= i < n - count
      ensures Window(slots, start, n)[count..][i] == Window(slots, start + count, n - count)[i]
    {
      assert start + (count + i) == start + count + i;
    }
  }

  lemma WindowWrap<T>(slots: seq<T>, start: nat, n: nat, logSize: nat)
    requires logSize <= 63 && |slots| == Pow2(logSize)
    ensures Window(slots, Wrap(start), n) == Window(slots, start, n)
  {
    hide Slot, Wrap;
    forall i | 0 <= i < n
      ensures Window(slots, Wrap(start), n)[i] == Window(slots, start, n)[i]
    {
      SlotWrap(start, i, logSize);
    }
  }

  lemma SlotWrap(start: nat, i: nat, logSize: nat)
    requires logSize <= 63
    ensures Slot(Wrap(start) + i, Pow2(logSize)) == Slot(start + i, Pow2(logSize))
  {
    WrapKeepsSlot(Wrap(start) + i, logSize);
    WrapKeepsSlot(start + i, logSize);
    WrapAdd(start, i);
  }

  lemma WrapAdd(a: int, b: int)
    ensures Wrap(Wrap(a) + b) == Wrap(a + b)
  {
  }

  lemma LeastFits(n: nat, r: nat)
    requires n <= TOP && IsLeastPow2AtLeast(n, r)
    ensures r <= TOP
  {
    WordIsPow2();
    assert n <= Pow2(63);
  }

  lemma LeastTwo()
    ensures IsLeastPow2AtLeast(2, 2)
  {
    assert Pow2(1) == 2;
  }

  lemma LogOf(n: nat) returns (k: nat)
    requires IsPow2(n) && 2 <= n
    ensures n == Pow2(k) && (n <= TOP ==> k <= 63)
  {
    k :| n == Pow2(k);
    WordIsPow2();
    Pow2Order(k, 63);
  }

  class RingBuffer<T(0)> {
    const mask: nat
    const storage: array<T>
    var in_: nat
    var out_: nat
    ghost const logSize: nat

    ghost predicate Valid()
      reads this
    {
      && logSize <= 63
      && storage.Length == mask + 1 == Pow2(logSize)
      && in_ < WORD && out_ < WORD
      && Readable() <= MaxSize()
    }

    function MaxSize(): nat {
      mask + 1
    }

    function Readable(): nat
      reads this
    {
      Wrap(in_ - out_)
    }

    /** The elements in the ring, oldest first. */
    ghost function Contents(): (s: seq<T>)
      reads this, storage
      requires Valid()
      ensures |s| == Readable()
    {
      Window(storage[..], out_, Readable())
    }

    /** Beyond 2^63 the round-up overflows to zero and leaves no slots behind an all-ones mask. */
    constructor (size: nat)
      requires size < WORD
      ensures fresh(storage) && in_ == out_ == 0
      ensures size <= TOP ==> Valid() && Contents() == []
      ensures size <= TOP ==> MaxSize() >= 2 && IsLeastPow2AtLeast(if size <= 2 then 2 else size, MaxSize())
      ensures size > TOP ==> mask == WORD - 1 && storage.Length == 0
    {
      var capacity := 2;
      if size > 2 {
        capacity := RoundUpToNextPowerOf2(size);
        if size <= TOP { LeastFits(size, capacity); }
      } else {
        LeastTwo();
      }
      ghost var k := 0;
      if size <= TOP { k := LogOf(capacity); }
      logSize := k;
      mask := Wrap(capacity - 1);
      storage := new T[capacity];
      in_, out_ := 0, 0;
    }

    /** The first element, `None` on an empty ring. */
    method Front() returns (x: Option<T>)
      requires Valid()
      ensures x == if Contents() == [] then None else Some(Contents()[0])
    {
      hide Wrap, And, Pow2, Slot, Window;
      EmptyWhenEqual(in_, out_);
      if out_ == in_ {
        return None;
      }
      MaskIsSlot(out_, logSize);
      FirstOfWindow(storage[..], out_, Readable());
      return Some(storage[And(out_, mask)]);
    }

    /** Constructs as many of `items` behind the last element as fit. */
    method EmplaceBackMulti(items: seq<T>) returns (count: nat)
      requires Valid()
      modifies `in_, storage
      ensures Valid()
      ensures count == Min(|items|, MaxSize() - |old(Contents())|)
      ensures Contents() == old(Contents()) + items[..count]
    {
      hide Wrap, Slot, Window, Filled, Pow2;
      ghost var before, held := storage[..], Readable();
      var writeable := MaxSize() - Wrap(in_ - out_);
      count := if |items| > writeable then writeable else |items|;
      if count == 0 {
        assert items[..count] == [];
        return;
      }
      FillSlots(items[..count]);
      PushedWindow(before, storage[..], out_, held, in_, items[..count], logSize);
      in_ := Wrap(in_ + count);
    }

    method FillSlots(items: seq<T>)
      requires Valid() && 0 < |items| <= MaxSize()
      modifies storage
      ensures Filled(old(storage[..]), storage[..], Slot(in_, storage.Length), items)
    {
      ghost var before := storage[..];
      MaskIsSlot(in_, logSize);
      var offset := And(in_, mask);
      var slice := Min(|items|, MaxSize() - offset);
      for i := 0 to slice
        invariant forall k :: 0 <= k < i ==> storage[offset + k] == items[k]
        invariant forall s :: 0 <= s < storage.Length && !(offset <= s < offset + i) ==> storage[s] == before[s]
      {
        storage[offset + i] := items[i];
      }
      for i := 0 to |items| - slice
        invariant forall k :: 0 <= k < slice ==> storage[offset + k] == items[k]
        invariant forall k :: 0 <= k < i ==> storage[k] == items[slice + k]
        invariant forall s :: i <= s < storage.Length && !(offset <= s < offset + slice) ==> storage[s] == before[s]
      {
        storage[i] := items[slice + i];
      }
      SlotSmall(offset, storage.Length);
      TwoSegmentsFill(before, storage[..], offset, items);
    }

    method PushBack(x: T) returns (ok: bool)
      requires Valid()
      modifies `in_, storage
      ensures Valid()
      ensures ok == (|old(Contents())| < MaxSize())
      ensures Contents() == if ok then old(Contents()) + [x] else old(Contents())
    {
      var count := EmplaceBackMulti([x]);
      ok := count != 0;
      assert ok ==> [x][..count] == [x];
    }

    /** Hands the first `limit` elements, or all when there are fewer, to the caller in order. */
    method PopFrontMulti(limit: nat) returns (popped: seq<T>)
      requires Valid()
      modifies `out_
      ensures Valid()
      ensures |popped| == Min(limit, |old(Contents())|)
      ensures old(Contents()) == popped + Contents()
    {
      hide Wrap, Slot, Window, Pow2;
      var readable := Wrap(in_ - out_);
      var count := if limit > readable then readable else limit;
      popped := [];
      if count == 0 {
        return;
      }
      popped := ReadSlots(count);
      PoppedWindow(storage[..], out_, readable, count, logSize);
      InFromOut(in_, out_);
      out_ := Wrap(out_ + count);
    }

    method ReadSlots(count: nat) returns (popped: seq<T>)
      requires Valid() && 0 < count <= MaxSize()
      ensures popped == Window(storage[..], out_, count)
    {
      hide Slot, Window, And, Pow2;
      MaskIsSlot(out_, logSize);
      var offset := And(out_, mask);
      popped := [];
      var slice := Min(count, MaxSize() - offset);
      for i := 0 to slice
        invariant |popped| == i
        invariant forall k :: 0 <= k < i ==> popped[k] == storage[SlotAt(offset, k, mask + 1)]
      {
        popped := popped + [storage[offset + i]];
      }
      for i := 0 to count - slice
        invariant |popped| == slice + i
        invariant forall k :: 0 <= k < slice + i ==> popped[k] == storage[SlotAt(offset, k, mask + 1)]
      {
        popped := popped + [storage[i]];
      }
      SlotsAreWindow(storage[..], out_, popped);
    }
  }

  lemma MaskIsSlot(counter: nat, logSize: nat)
    ensures And(counter, Pow2(logSize) - 1) == Slot(counter, Pow2(logSize))
  {
    AndMask(counter, logSize);
  }

  lemma EmptyWhenEqual(start: nat, out: nat)
    requires start < WORD && out < WORD
    ensures Wrap(start - out) == 0 <==> start == out
  {
  }

  lemma FirstOfWindow<T>(slots: seq<T>, start: nat, n: nat)
    requires |slots| > 0 && n > 0
    ensures Window(slots, start, n)[0] == slots[Slot(start, |slots|)]
  {
    assert start + 0 == start;
    hide Slot;
  }

  lemma SlotSmall(s: nat, size: nat)
    requires s < size
    ensures Slot(s, size) == s
  {
    ModSplit(s, 0, s, size);
  }

  lemma InFromOut(start: nat, out: nat)
    requires out < WORD && start < WORD
    ensures start == Wrap(out + Wrap(start - out))
  {
  }

  lemma TwoSegmentsFill<T>(before: seq<T>, after: seq<T>, start: nat, items: seq<T>)
    requires 0 < |items| <= |before| == |after|
    requires var offset := Slot(start, |before|); var slice := Min(|items|, |before| - offset);
      && (forall k :: 0 <= k < slice ==> after[offset + k] == items[k])
      && (forall k :: 0 <= k < |items| - slice ==> after[k] == items[slice + k])
      && (forall s :: |items| - slice <= s < |before| && !(offset <= s < offset + slice) ==> after[s] == before[s])
    ensures Filled(before, after, start, items)
  {
    var offset := Slot(start, |before|);
    var slice := Min(|items|, |before| - offset);
    forall s | 0 <= s < |before| && after[s] != before[s]
      ensures exists k :: 0 <= k < |items| && s == SlotAt(offset, k, |before|)
    {
      if offset <= s < offset + slice {
        assert s == SlotAt(offset, s - offset, |before|);
      } else {
        assert s == SlotAt(offset, slice + s, |before|);
      }
    }
    forall k | 0 <= k < |items|
      ensures after[SlotAt(offset, k, |before|)] == items[k]
    {
      if k >= slice { assert items[k] == items[slice + (k - slice)]; }
    }
  }

  lemma SlotsAreWindow<T>(slots: seq<T>, start: nat, xs: seq<T>)
    requires 0 < |xs| <= |slots|
    requires forall k :: 0 <= k < |xs| ==>
      0 <= SlotAt(Slot(start, |slots|), k, |slots|) < |slots|
      && xs[k] == slots[SlotAt(Slot(start, |slots|), k, |slots|)]
    ensures xs == Window(slots, start, |xs|)
  {
    forall i: nat | i < |xs|
      ensures Window(slots, start, |xs|)[i] == xs[i]
    {
      SlotAtIsMod(start, i, |slots|);
    }
  }

  lemma PushedWindow<T>(before: seq<T>, after: seq<T>, out: nat, held: nat, start: nat, items: seq<T>, logSize: nat)
    requires logSize <= 63 && |before| == |after| == Pow2(logSize)
    requires out < WORD && start < WORD && held == Wrap(start - out)
    requires Filled(before, after, Slot(start, |before|), items)
    requires held + |items| <= |before|
    ensures Wrap(Wrap(start + |items|) - out) == held + |items|
    ensures Window(after, out, held + |items|) == Window(before, out, held) + items
  {
    hide *;
    CapacityDividesWord(logSize);
    InFromOut(start, out);
    WrapDistance(start, out, |items|);
    SlotWrap(out + held, 0, logSize);
    assert Slot(start, |before|) == Slot(out + held, |before|);
    FilledSlot(before, after, out + held, items);
    WindowFilled(before, after, out, held, items);
  }

  lemma FilledSlot<T>(before: seq<T>, after: seq<T>, start: nat, items: seq<T>)
    requires |before| > 0 && Filled(before, after, Slot(start, |before|), items)
    ensures Filled(before, after, start, items)
  {
    SlotSmall(Slot(start, |before|), |before|);
    hide Slot, SlotAt;
  }

  lemma WrapDistance(start: nat, out: nat, n: nat)
    requires out < WORD && start < WORD && Wrap(start - out) + n < WORD
    ensures Wrap(Wrap(start + n) - out) == Wrap(start - out) + n
  {
  }

  lemma PoppedWindow<T>(slots: seq<T>, start: nat, held: nat, count: nat, logSize: nat)
    requires logSize <= 63 && |slots| == Pow2(logSize)
    requires start < WORD && count <= held <= |slots|
    ensures Window(slots, start, held)
         == Window(slots, start, count) + Window(slots, Wrap(start + count), held - count)
    ensures Wrap(Wrap(start + held) - Wrap(start + count)) == held - count
  {
    hide Slot;
    CapacityDividesWord(logSize);
    WrapLess(start, held, count);
    WindowWrap(slots, start + count, held - count, logSize);
    WindowDrop(slots, start, held, count);
    assert Window(slots, start, held)[..count] == Window(slots, start, count);
    assert Window(slots, start, held) == Window(slots, start, held)[..count] + Window(slots, start, held)[count..];
  }

  lemma WrapLess(start: nat, held: nat, count: nat)
    requires count <= held < WORD
    ensures Wrap(Wrap(start + held) - Wrap(start + count)) == held - count
  {
    WrapAdd(start, held);
    WrapAdd(start, count);
  }
}
