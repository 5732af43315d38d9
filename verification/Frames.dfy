/**
 The bitmap physical frame allocator. One bit per frame, set when the frame is taken; a running count;
 and a cursor where the next search starts. All of it is specified by the set of taken frames.
 */
module Frames {
  import opened Results
  import opened Words
  import opened Arithmetic
  import opened BootProtocol

  datatype MemoryError = OutOfMemory | OutOfRange | NotAllocated | BitmapTooSmall

  function BitmapWordsFor(frames: nat): nat { CeilDiv(frames, 64) }

  /** The frame containing an address. */
  function Containing(address: nat): nat { address / FRAME_SIZE }

  /** Bit `i` of a bitmap. */
  predicate BitAt(words: seq<nat>, i: nat)
    requires i / 64 < |words|
  {
    Bit(words[i / 64], i % 64)
  }

  ghost predicate Words64(words: seq<nat>) {
    forall k :: 0 <= k < |words| ==> words[k] < WORD
  }

  /** The set of taken frames among the first `frames` that a bitmap describes. */
  ghost function TakenIn(words: seq<nat>, frames: nat): (s: set<nat>)
    requires frames <= 64 * |words|
    ensures forall i: nat :: i in s <==> i < frames && BitAt(words, i)
  {
    set i: nat | i < frames && BitAt(words, i)
  }

  /** Setting or clearing one bit of a bitmap. */
  lemma WriteBit(words: seq<nat>, frames: nat, index: nat, w: nat, taken: bool)
    requires frames <= 64 * |words| && index < frames && w < WORD
    requires forall i: nat :: i < 64 ==> Bit(w, i) == (if i == index % 64 then taken else Bit(words[index / 64], i))
    ensures TakenIn(words[index / 64 := w], frames) ==
            if taken then TakenIn(words, frames) + {index} else TakenIn(words, frames) - {index}
  {
    hide Bit;
    var words' := words[index / 64 := w];
    forall i: nat | i < frames
      ensures BitAt(words', i) == if i == index then taken else BitAt(words, i)
    {
      assert i / 64 == index / 64 && i % 64 == index % 64 ==> i == index;
    }
  }

  // ----- runs of free frames

  /** Frames `i` to `i + count` are managed and none of them is taken. */
  ghost predicate FreeRun(taken: set<nat>, frames: nat, i: nat, count: nat) {
    i + count <= frames && forall k: nat :: i <= k < i + count ==> k !in taken
  }

  /** `i` is the lowest start of a free run at or above `from`. */
  ghost predicate LowestRun(taken: set<nat>, frames: nat, from: nat, i: nat, count: nat) {
    && from <= i && FreeRun(taken, frames, i, count)
    && forall j: nat :: from <= j < i ==> !FreeRun(taken, frames, j, count)
  }

  /** The frames of a run. */
  ghost function RunSet(i: nat, count: nat): (s: set<nat>)
    ensures forall k: nat :: k in s <==> i <= k < i + count
    ensures |s| == count
  {
    if count == 0 then {} else RunSet(i, count - 1) + {i + count - 1}
  }

  lemma RunStep(taken: set<nat>, i: nat, count: nat)
    requires i + count !in taken
    ensures taken + RunSet(i, count + 1) == taken + RunSet(i, count) + {i + count}
    ensures |taken + RunSet(i, count + 1)| == |taken + RunSet(i, count)| + 1
  {
    assert i + count !in taken + RunSet(i, count);
    assert taken + RunSet(i, count + 1) == taken + RunSet(i, count) + {i + count};
  }

  /** The taken frames once the first `i` of a run are marked. */
  ghost function Marked(taken: set<nat>, index: nat, i: nat): set<nat> { taken + RunSet(index, i) }

  lemma MarkedNone(taken: set<nat>, index: nat)
    ensures Marked(taken, index, 0) == taken
  {
  }

  lemma MarkedStep(taken: set<nat>, frames: nat, index: nat, count: nat, i: nat)
    requires FreeRun(taken, frames, index, count) && i < count
    ensures index + i < frames && Marked(taken, index, i + 1) == Marked(taken, index, i) + {index + i}
  {
    RunStep(taken, index, i);
  }

  lemma {:induction false} MarkedSize(taken: set<nat>, frames: nat, index: nat, count: nat, i: nat)
    requires FreeRun(taken, frames, index, count) && i <= count
    ensures |Marked(taken, index, i)| == |taken| + i
  {
    if i == 0 {
      MarkedNone(taken, index);
    } else {
      MarkedSize(taken, frames, index, count, i - 1);
      RunStep(taken, index, i - 1);
    }
  }

  /** A taken frame blocks every start whose run would reach over it. */
  lemma BlockerSkips(taken: set<nat>, frames: nat, index: nat, blocker: nat, count: nat)
    requires blocker in taken && index <= blocker < index + count
    ensures forall j: nat :: index <= j <= blocker ==> !FreeRun(taken, frames, j, count)
  {
  }

  // ----- byte ranges

  /** Frame `f` is one of those `reserve_range` walks over for `[start, start + len)`. */
  predicate Touches(f: nat, start: nat, len: nat) {
    len > 0 && Containing(start) <= f <= Containing(if start + len - 1 < WORD then start + len - 1 else WORD - 1)
  }

  /** For a range inside the address space those are the frames that overlap it. */
  lemma TouchesMeaning(f: nat, start: nat, len: nat)
    requires start + len <= WORD
    ensures Touches(f, start, len) <==> len > 0 && f * FRAME_SIZE < start + len && start < f * FRAME_SIZE + FRAME_SIZE
  {
  }

  class FrameAllocator {
    const bitmap: array<nat>
    const base: nat
    const frames: nat
    var allocatedCount: nat
    var cursor: nat

    /** The bitmap covers the frames, and the search position is among them. */
    ghost predicate WellFormed()
      reads this, bitmap
      ensures WellFormed() ==> frames <= 64 * bitmap.Length
    {
      frames <= 64 * bitmap.Length && base + frames <= WORD && cursor <= frames && Words64(bitmap[..])
    }

    /** The frames that are allocated or reserved, counted from `base`. */
    ghost function Taken(): set<nat>
      requires frames <= 64 * bitmap.Length
      reads bitmap
    {
      TakenIn(bitmap[..], frames)
    }

    /** The running count is the size of the set. */
    ghost predicate Valid()
      reads this, bitmap
    {
      WellFormed() && allocatedCount == |Taken()|
    }

    constructor (bitmap: array<nat>, base: nat, frames: nat)
      ensures this.bitmap == bitmap && this.base == base && this.frames == frames
      ensures allocatedCount == frames && cursor == 0
    {
      this.bitmap := bitmap;
      this.base := base;
      this.frames := frames;
      allocatedCount, cursor := frames, 0;
    }

    /** An allocator with everything marked taken. */
    static method New(bitmap: array<nat>, base: nat, frames: nat) returns (r: Result<FrameAllocator, MemoryError>)
      requires base + frames <= WORD
      modifies bitmap
      ensures r.Failure? <==> frames > 64 * bitmap.Length
      ensures r.Failure? ==> r.error == BitmapTooSmall && bitmap[..] == old(bitmap[..])
      ensures r.Success? ==>
                && fresh(r.value) && r.value.bitmap == bitmap && r.value.base == base && r.value.frames == frames
                && r.value.Valid() && r.value.Taken() == Below(frames) && r.value.cursor == 0
    {
      CeilDivBounds(frames, 64);
      if bitmap.Length < BitmapWordsFor(frames) {
        return Failure(BitmapTooSmall);
      }
      for k := 0 to bitmap.Length
        invariant forall j :: 0 <= j < k ==> bitmap[j] == WORD - 1
      {
        bitmap[k] := WORD - 1;
      }
      var a := new FrameAllocator(bitmap, base, frames);
      forall i: nat | i < frames
        ensures BitAt(bitmap[..], i)
      {
        AllOnes(i % 64);
      }
      assert a.Taken() == Below(frames);
      r := Success(a);
    }

    function IndexOf(frame: nat): (r: Option<nat>)
      ensures r == if base <= frame < base + frames then Some(frame - base) else None
    {
      if frame < base then None
      else
        var index := frame - base;
        if index >= frames then None else Some(index)
    }

    function Get(index: nat): (r: bool)
      requires WellFormed() && index < frames
      reads this, bitmap
      ensures r <==> index in Taken()
    {
      TestBit(bitmap[index / 64], index % 64);
      And(bitmap[index / 64], Pow2(index % 64)) != 0
    }

    method Set(index: nat, taken: bool)
      requires WellFormed() && index < frames
      modifies bitmap
      ensures WellFormed()
      ensures Taken() == if taken then old(Taken()) + {index} else old(Taken()) - {index}
    {
      hide Bit, And, Or, TakenIn;
      var word := bitmap[index / 64];
      var mask := Pow2(index % 64);
      ghost var before := bitmap[..];
      SetBit(word, index % 64);
      ClearBit(word, index % 64);
      if taken {
        bitmap[index / 64] := Or(word, mask);
      } else {
        bitmap[index / 64] := And(word, Not(mask));
      }
      assert bitmap[..] == before[index / 64 := bitmap[index / 64]];
      WriteBit(before, frames, index, bitmap[index / 64], taken);
    }

    /** Marks a frame as free. Releasing a free frame again changes nothing. */
    method Release(frame: nat) returns (r: Result<Done, MemoryError>)
      requires Valid()
      modifies this`allocatedCount, bitmap
      ensures Valid()
      ensures r == if base <= frame < base + frames then Success(Done) else Failure(OutOfRange)
      ensures Taken() == if r.Success? then old(Taken()) - {frame - base} else old(Taken())
    {
      hide TakenIn, Words64;
      var index := IndexOf(frame);
      if index.None? {
        return Failure(OutOfRange);
      }
      if Get(index.value) {
        Set(index.value, false);
        allocatedCount := allocatedCount - 1;
      }
      r := Success(Done);
    }

    /** Marks a frame as taken. Reserving a taken frame again changes nothing. */
    method Reserve(frame: nat) returns (r: Result<Done, MemoryError>)
      requires Valid()
      modifies this`allocatedCount, bitmap
      ensures Valid()
      ensures r == if base <= frame < base + frames then Success(Done) else Failure(OutOfRange)
      ensures Taken() == if r.Success? then old(Taken()) + {frame - base} else old(Taken())
    {
      hide TakenIn, Words64;
      var index := IndexOf(frame);
      if index.None? {
        return Failure(OutOfRange);
      }
      if !Get(index.value) {
        Set(index.value, true);
        allocatedCount := allocatedCount + 1;
      }
      r := Success(Done);
    }

    /** Marks every managed frame that `[start, start + len)` touches as taken. */
    method ReserveRange(start: nat, len: nat)
      requires Valid() && start < WORD
      modifies this`allocatedCount, bitmap
      ensures Valid()
      ensures forall i: nat :: i < frames ==> (i in Taken() <==> i in old(Taken()) || Touches(base + i, start, len))
      ensures forall i: nat :: i in Taken() ==> i < frames
    {
      hide TakenIn, Words64;
      TakenAreManaged();
      if len == 0 {
        return;
      }
      var first := Containing(start);
      var last := Containing(if start + len - 1 < WORD then start + len - 1 else WORD - 1);
      var f := first;
      while f <= last
        invariant first <= f <= last + 1
        invariant Valid()
        invariant forall i: nat :: i < frames ==> (i in Taken() <==> i in old(Taken()) || first <= base + i < f)
        decreases last + 1 - f
      {
        var _ := Reserve(f);
        f := f + 1;
      }
      TakenAreManaged();
    }

    lemma ValidShape()
      requires Valid()
      ensures WellFormed() && frames <= 64 * bitmap.Length
    {
    }

    lemma TakenAreManaged()
      requires frames <= 64 * bitmap.Length
      ensures forall i: nat :: i in Taken() ==> i < frames
    {
    }

    /** The first taken frame in `[from, to)`. */
    method FirstAllocatedIn(from: nat, to: nat) returns (r: Option<nat>)
      requires WellFormed() && from <= to <= frames
      ensures r.None? <==> forall k: nat :: from <= k < to ==> k !in Taken()
      ensures r.Some? ==> from <= r.value < to && r.value in Taken() && forall k: nat :: from <= k < r.value ==>
                k !in Taken()
    {
      hide TakenIn;
      for i := from to to
        invariant forall k: nat :: from <= k < i ==> k !in Taken()
      {
        if Get(i) {
          return Some(i);
        }
      }
      r := None;
    }

    /** One pass of the search: the lowest free run at or above `start`, skipping past each blocker. */
    method SearchFrom(start: nat, count: nat) returns (r: Option<nat>)
      requires WellFormed() && count > 0
      ensures r.None? <==> forall j: nat :: start <= j ==> !FreeRun(Taken(), frames, j, count)
      ensures r.Some? ==> LowestRun(Taken(), frames, start, r.value, count)
    {
      hide TakenIn;
      var index := start;
      while index + count <= frames
        invariant start <= index
        invariant forall j: nat :: start <= j < index ==> !FreeRun(Taken(), frames, j, count)
        decreases frames - index
      {
        var blocker := FirstAllocatedIn(index, index + count);
        if blocker.None? {
          assert FreeRun(Taken(), frames, index, count);
          return Some(index);
        }
        BlockerSkips(Taken(), frames, index, blocker.value, count);
        index := blocker.value + 1;
      }
      r := None;
    }

    /**
     Allocates `count` contiguous frames: the lowest free run at or above the cursor, or failing that
     the lowest anywhere. Refused exactly when the count is zero or no free run of that length exists.
     */
    method AllocateContiguous(count: nat) returns (r: Result<nat, MemoryError>)
      requires Valid()
      modifies this`allocatedCount, this`cursor, bitmap
      ensures Valid()
      ensures r.Failure? ==> r.error == OutOfMemory && Taken() == old(Taken()) && cursor == old(cursor)
      ensures r.Failure? <==> count == 0 || forall j: nat :: !FreeRun(old(Taken()), frames, j, count)
      ensures r.Success? ==>
                && r.value >= base
                && Taken() == old(Taken()) + RunSet(r.value - base, count)
                && cursor == r.value - base + count
                && Chosen(old(Taken()), frames, old(cursor), r.value - base, count)
    {
      hide TakenIn, Words64, RunSet, Chosen, FreeRun, LowestRun, FrameAllocator.Taken;
      NoLongRun(Taken(), frames, count);
      if count == 0 || count > frames {
        return Failure(OutOfMemory);
      }
      var found := FindRun(count);
      if found.None? {
        return Failure(OutOfMemory);
      }
      MarkRun(found.value, count);
      allocatedCount := allocatedCount + count;
      cursor := found.value + count;
      r := Success(base + found.value);
    }

    /** Both passes of the search: from the cursor, then from the start. */
    method FindRun(count: nat) returns (r: Option<nat>)
      requires WellFormed() && count > 0
      ensures r.None? <==> forall j: nat :: !FreeRun(Taken(), frames, j, count)
      ensures r.Some? ==>
                && Chosen(Taken(), frames, cursor, r.value, count)
                && FreeRun(Taken(), frames, r.value, count) && r.value + count <= frames
    {
      hide TakenIn, Words64, Chosen, FreeRun, FrameAllocator.WellFormed, FrameAllocator.Taken;
      r := SearchFrom(cursor, count);
      if r.None? {
        r := SearchFrom(0, count);
      }
      if r.Some? {
        ChosenBy(Taken(), frames, cursor, r.value, count);
        RunFits(Taken(), frames, r.value, count);
      }
    }

    method MarkRun(index: nat, count: nat)
      requires WellFormed() && frames <= 64 * bitmap.Length && FreeRun(Taken(), frames, index, count)
      modifies bitmap
      ensures WellFormed() && Taken() == old(Taken()) + RunSet(index, count)
      ensures |Taken()| == |old(Taken())| + count
    {
      hide TakenIn, Words64, RunSet, FreeRun, FrameAllocator.WellFormed, FrameAllocator.Taken;
      ghost var start := Taken();
      MarkedNone(start, index);
      for i := 0 to count
        invariant WellFormed() && Taken() == Marked(start, index, i)
      {
        MarkedStep(start, frames, index, count, i);
        Set(index + i, true);
      }
      MarkedSize(start, frames, index, count, count);
    }

    method Allocate() returns (r: Result<nat, MemoryError>)
      requires Valid()
      modifies this`allocatedCount, this`cursor, bitmap
      ensures Valid()
      ensures r.Failure? ==> r.error == OutOfMemory && Taken() == old(Taken()) && cursor == old(cursor)
      ensures r.Failure? <==> old(allocatedCount) == frames
      ensures r.Success? ==>
                && base <= r.value < base + frames && r.value - base !in old(Taken())
                && Taken() == old(Taken()) + {r.value - base} && cursor == r.value - base + 1
                && Chosen(old(Taken()), frames, old(cursor), r.value - base, 1)
    {
      hide TakenIn, Words64;
      ghost var taken := Taken();
      TakenAreManaged();
      FullExactly(taken, frames);
      OneFrameRun(taken, frames);
      r := AllocateContiguous(1);
      if r.Success? {
        assert FreeRun(taken, frames, r.value - base, 1);
        assert RunSet(r.value - base, 1) == {r.value - base};
      }
    }

    /** Frees one frame; freeing a free frame is reported. */
    method Free(frame: nat) returns (r: Result<Done, MemoryError>)
      requires Valid()
      modifies this`allocatedCount, this`cursor, bitmap
      ensures Valid()
      ensures r == if !(base <= frame < base + frames) then Failure(OutOfRange)
                   else if frame - base !in old(Taken()) then Failure(NotAllocated)
                   else Success(Done)
      ensures r.Success? ==> Taken() == old(Taken()) - {frame - base}
      ensures r.Success? ==> cursor == if frame - base < old(cursor) then frame - base else old(cursor)
      ensures r.Failure? ==> Taken() == old(Taken()) && cursor == old(cursor)
    {
      hide TakenIn, Words64;
      var index := IndexOf(frame);
      if index.None? {
        return Failure(OutOfRange);
      }
      if !Get(index.value) {
        return Failure(NotAllocated);
      }
      Set(index.value, false);
      allocatedCount := allocatedCount - 1;
      if index.value < cursor {
        cursor := index.value;
      }
      r := Success(Done);
    }

    /** Frees `count` frames from `frame`, all of them or none. */
    method FreeContiguous(frame: nat, count: nat) returns (r: Result<Done, MemoryError>)
      requires Valid()
      modifies this`allocatedCount, this`cursor, bitmap
      ensures Valid()
      ensures r.Success? <==> forall f: nat :: frame <= f < frame + count ==> HeldIn(old(Taken()), f)
      ensures r.Success? ==> forall i: nat :: i in Taken() <==>
                i in old(Taken()) && !(frame <= base + i < frame + count)
      ensures r.Success? ==> cursor == if count > 0 && frame < base + old(cursor) then frame - base else old(cursor)
      ensures r.Failure? ==> Taken() == old(Taken()) && cursor == old(cursor)
      ensures r.Failure? ==>
                exists f: nat :: && frame <= f < frame + count
                    && (forall g: nat :: frame <= g < f ==> HeldIn(old(Taken()), g))
                                 && !HeldIn(old(Taken()), f)
                                 && r.error == if base <= f < base + frames then NotAllocated else OutOfRange
    {
      hide TakenIn, Words64, FrameAllocator.HeldIn;
      r := CheckHeld(frame, count);
      if r.Success? {
        ReleaseRun(frame, count);
      }
    }

    /** The first pass: every frame of the run must be held before any is freed. */
    method CheckHeld(frame: nat, count: nat) returns (r: Result<Done, MemoryError>)
      requires WellFormed()
      ensures r.Success? <==> forall f: nat :: frame <= f < frame + count ==> HeldIn(Taken(), f)
      ensures r.Failure? ==>
                exists f: nat :: && frame <= f < frame + count
                    && (forall g: nat :: frame <= g < f ==> HeldIn(Taken(), g))
                                 && !HeldIn(Taken(), f)
                                 && r.error == if base <= f < base + frames then NotAllocated else OutOfRange
    {
      hide TakenIn, Words64;
      TakenAreManaged();
      for i := 0 to count
        invariant forall f: nat :: frame <= f < frame + i ==> HeldIn(Taken(), f)
      {
        var index := IndexOf(frame + i);
        if index.None? {
          assert !HeldIn(Taken(), frame + i);
          return Failure(OutOfRange);
        }
        if !Get(index.value) {
          assert !HeldIn(Taken(), frame + i);
          return Failure(NotAllocated);
        }
      }
      r := Success(Done);
    }

    /** The second pass: frees a run that is entirely held. */
    method ReleaseRun(frame: nat, count: nat)
      requires Valid() && forall f: nat :: frame <= f < frame + count ==> HeldIn(Taken(), f)
      modifies this`allocatedCount, this`cursor, bitmap
      ensures Valid()
      ensures forall i: nat :: i in Taken() <==> i in old(Taken()) && !(frame <= base + i < frame + count)
      ensures cursor == if count > 0 && frame < base + old(cursor) then frame - base else old(cursor)
    {
      hide TakenIn, Words64, FrameAllocator.Valid, FrameAllocator.WellFormed, FrameAllocator.Taken;
      ValidShape();
      TakenAreManaged();
      for i := 0 to count
        invariant Valid() && frames <= 64 * bitmap.Length
        invariant cursor == if i > 0 && frame < base + old(cursor) then frame - base else old(cursor)
        invariant forall k: nat :: k in Taken() <==> k in old(Taken()) && !(frame <= base + k < frame + i)
      {
        assert HeldIn(old(Taken()), frame + i);
        var freed := Free(frame + i);
      }
    }

    /** Frame `f` is managed and taken. */
    ghost predicate HeldIn(taken: set<nat>, f: nat) {
      base <= f && f - base in taken
    }

    method IsAllocated(frame: nat) returns (r: Option<bool>)
      requires WellFormed()
      ensures r.None? <==> !(base <= frame < base + frames)
      ensures r.Some? ==> (r.value <==> frame - base in Taken())
    {
      hide TakenIn, Words64;
      var index := IndexOf(frame);
      if index.None? {
        return None;
      }
      r := Some(Get(index.value));
    }

    /** Recounts the bitmap: true exactly when the running count agrees with it. */
    method Audit() returns (ok: bool)
      requires WellFormed()
      ensures ok <==> Valid()
    {
      hide TakenIn, Words64;
      TakenAreManaged();
      var counted := 0;
      ghost var seen: set<nat> := {};
      for i := 0 to frames
        invariant seen <= Taken() && |seen| == counted
        invariant forall k: nat :: k in Taken() && k < i ==> k in seen
        invariant forall k: nat :: k in seen ==> k < i
      {
        if Get(i) {
          counted := counted + 1;
          seen := seen + {i};
        }
      }
      assert seen == Taken();
      ok := counted == allocatedCount;
    }

    function FreeFrames(): (n: nat)
      requires Valid()
      reads this, bitmap
      ensures n == frames - |Taken()|
    {
      assert allocatedCount <= frames by {
        TakenAreManaged();
        SubsetSize(Taken(), Below(frames));
      }
      frames - allocatedCount
    }
  }

  /** The choice the two passes make: at or above the cursor if a run fits there, else from the start. */
  ghost predicate Chosen(taken: set<nat>, frames: nat, cursor: nat, i: nat, count: nat) {
    if exists j: nat :: cursor <= j && FreeRun(taken, frames, j, count)
    then LowestRun(taken, frames, cursor, i, count)
    else LowestRun(taken, frames, 0, i, count)
  }

  lemma ChosenBy(taken: set<nat>, frames: nat, cursor: nat, i: nat, count: nat)
    ensures LowestRun(taken, frames, cursor, i, count) ==>
              Chosen(taken, frames, cursor, i, count) && FreeRun(taken, frames, i, count)
    ensures (forall j: nat :: cursor <= j ==> !FreeRun(taken, frames, j, count))
              && LowestRun(taken, frames, 0, i, count) ==>
              Chosen(taken, frames, cursor, i, count) && FreeRun(taken, frames, i, count)
  {
    hide FreeRun;
  }

  lemma RunFits(taken: set<nat>, frames: nat, i: nat, count: nat)
    requires FreeRun(taken, frames, i, count)
    ensures i + count <= frames
  {
  }

  lemma NoLongRun(taken: set<nat>, frames: nat, count: nat)
    ensures count > frames ==> forall j: nat :: !FreeRun(taken, frames, j, count)
  {
  }

  /** A set of managed frames is everything exactly when its size says so. */
  lemma FullExactly(taken: set<nat>, frames: nat)
    requires forall i: nat :: i in taken ==> i < frames
    ensures |taken| <= frames
    ensures |taken| == frames <==> forall i: nat :: i < frames ==> i in taken
  {
    SubsetSize(taken, Below(frames));
    if |taken| == frames {
      forall i: nat | i < frames
        ensures i in taken
      {
        if i !in taken { SubsetSize(taken, Below(frames) - {i}); }
      }
    }
    if forall i: nat :: i < frames ==> i in taken {
      assert taken == Below(frames);
    }
  }

  lemma OneFrameRun(taken: set<nat>, frames: nat)
    requires forall i: nat :: i in taken ==> i < frames
    ensures |taken| < frames <==> exists i: nat :: FreeRun(taken, frames, i, 1)
  {
    FullExactly(taken, frames);
    if |taken| < frames {
      var i: nat :| i < frames && i !in taken;
      assert FreeRun(taken, frames, i, 1);
    }
    if i: nat :| FreeRun(taken, frames, i, 1) {
      assert i !in taken;
    }
  }

  // ----- building from a memory map

  /** Frame `f` is one that `from_memory_map` releases: it lies in a region usable at handoff. */
  ghost predicate InUsable(regions: seq<MemoryRegion>, f: nat) {
    exists k :: 0 <= k < |regions| && InRegion(regions[k], f)
  }

  predicate InRegion(region: MemoryRegion, f: nat) {
    region.kind == Usable && Containing(region.start) <= f < Containing(region.start) + region.len / FRAME_SIZE
  }

  /** In a validated map those are the frames that lie whole in a region of kind Usable. */
  lemma UsableMeaning(regions: seq<MemoryRegion>, f: nat)
    requires forall k :: 0 <= k < |regions| ==> WellFormed(regions[k])
    ensures InUsable(regions, f) <==>
            exists k :: && 0 <= k < |regions| && regions[k].kind == Usable
                        && regions[k].start <= f * FRAME_SIZE
                            && (f + 1) * FRAME_SIZE <= regions[k].start + regions[k].len
  {
    forall k | 0 <= k < |regions|
      ensures InRegion(regions[k], f) <==>
              && regions[k].kind == Usable
              && regions[k].start <= f * FRAME_SIZE && (f + 1) * FRAME_SIZE <= regions[k].start + regions[k].len
    {
      assert WellFormed(regions[k]);
    }
  }

  function HighestEnd(regions: seq<MemoryRegion>): nat {
    if regions == [] then 0
    else
      var rest, end := HighestEnd(regions[..|regions| - 1]), regions[|regions| - 1].End();
      if end > rest then end else rest
  }

  /** How many frames are managed: what the map reaches, limited to what the bitmap can describe. */
  function ManagedFrames(regions: seq<MemoryRegion>, words: nat): nat {
    var describable := if words * 64 < WORD then words * 64 else WORD - 1;
    if HighestEnd(regions) / FRAME_SIZE < describable then HighestEnd(regions) / FRAME_SIZE else describable
  }

  lemma {:induction false} HighestEndMeaning(regions: seq<MemoryRegion>)
    ensures HighestEnd(regions) < WORD
    ensures forall k :: 0 <= k < |regions| ==> regions[k].End() <= HighestEnd(regions)
  {
    if regions != [] {
      HighestEndMeaning(regions[..|regions| - 1]);
      assert forall k :: 0 <= k < |regions| - 1 ==> regions[k] == regions[..|regions| - 1][k];
    }
  }

  lemma {:induction false} HighestReached(regions: seq<MemoryRegion>, x: nat)
    requires x > 0
    ensures HighestEnd(regions) >= x <==> exists k :: 0 <= k < |regions| && regions[k].End() >= x
  {
    if regions != [] {
      var n := |regions| - 1;
      HighestReached(regions[..n], x);
      if k :| 0 <= k < n && regions[k].End() >= x { assert regions[..n][k] == regions[k]; }
      if k :| 0 <= k < n && regions[..n][k].End() >= x { assert regions[..n][k] == regions[k]; }
    }
  }

  /** Frame `f` has a bit, and ends below 2^64 and by the end of some region. */
  ghost predicate IsManaged(regions: seq<MemoryRegion>, words: nat, f: nat) {
    f < 64 * words && (f + 1) * FRAME_SIZE < WORD && exists k :: 0 <= k < |regions| && EndsBy(regions[k], f)
  }

  predicate EndsBy(region: MemoryRegion, f: nat) { (f + 1) * FRAME_SIZE <= region.start + region.len }

  /** The managed frames are those. */
  lemma ManagedMeaning(regions: seq<MemoryRegion>, words: nat, f: nat)
    ensures f < ManagedFrames(regions, words) <==> IsManaged(regions, words, f)
  {
    var x := (f + 1) * FRAME_SIZE;
    HighestReached(regions, x);
    HighestEndMeaning(regions);
    assert f < HighestEnd(regions) / FRAME_SIZE <==> HighestEnd(regions) >= x;
    assert forall k :: 0 <= k < |regions| ==> (regions[k].End() >= x <==> EndsBy(regions[k], f) && x < WORD);
  }

  /** Releases the frames of one region, skipping those beyond what is managed. */
  method ReleaseRegion(a: FrameAllocator, region: MemoryRegion)
    requires a.Valid() && a.base == 0 && region.kind.UsableAtHandoff()
    modifies a`allocatedCount, a.bitmap
    ensures a.Valid()
    ensures forall i: nat :: i in a.Taken() <==> i in old(a.Taken()) && !InRegion(region, i)
  {
    hide TakenIn, FrameAllocator.Valid, FrameAllocator.WellFormed;
    a.ValidShape();
    a.TakenAreManaged();
    var first := Containing(region.start);
    var count := region.len / FRAME_SIZE;
    for i := 0 to count
      invariant a.Valid() && a.frames <= 64 * a.bitmap.Length
      invariant forall k: nat :: k in a.Taken() <==> k in old(a.Taken()) && !(first <= k < first + i)
    {
      var _ := a.Release(first + i);
    }
  }

  method HighestOf(regions: seq<MemoryRegion>) returns (highest: nat)
    ensures highest == HighestEnd(regions)
  {
    highest := 0;
    for k := 0 to |regions|
      invariant highest == HighestEnd(regions[..k])
    {
      assert regions[..k + 1][..k] == regions[..k];
      if regions[k].End() > highest { highest := regions[k].End(); }
    }
    assert regions[..|regions|] == regions;
  }

  /** The release pass over the regions that are usable at handoff. */
  method ReleaseUsable(a: FrameAllocator, regions: seq<MemoryRegion>)
    requires a.Valid() && a.base == 0
    modifies a`allocatedCount, a.bitmap
    ensures a.Valid()
    ensures forall i: nat :: i in a.Taken() <==> i in old(a.Taken()) && !InUsable(regions, i)
  {
    hide TakenIn, InRegion, InUsable, FrameAllocator.Valid, FrameAllocator.WellFormed;
    a.ValidShape();
    NoRegions();
    for k := 0 to |regions|
      invariant a.Valid() && a.frames <= 64 * a.bitmap.Length
      invariant forall i: nat :: i in a.Taken() <==> i in old(a.Taken()) && !InUsable(regions[..k], i)
    {
      assert regions[..k + 1] == regions[..k] + [regions[k]];
      UsableStep(regions[..k], regions[k]);
      if regions[k].kind.UsableAtHandoff() {
        ReleaseRegion(a, regions[k]);
      }
    }
    assert regions[..|regions|] == regions;
  }

  /** An allocator for a firmware map: exactly the managed frames of usable regions are free. */
  method FromMemoryMap(bitmap: array<nat>, regions: seq<MemoryRegion>) returns (r: Result<FrameAllocator, MemoryError>)
    modifies bitmap
    ensures r.Success? && fresh(r.value) && r.value.bitmap == bitmap && r.value.base == 0 && r.value.cursor == 0
    ensures r.value.frames == ManagedFrames(regions, bitmap.Length)
    ensures forall f: nat :: f < r.value.frames <==> IsManaged(regions, bitmap.Length, f)
    ensures r.value.Valid()
    ensures forall i: nat :: i in r.value.Taken() <==> i < r.value.frames && !InUsable(regions, i)
  {
    hide TakenIn, Words64, InUsable, IsManaged;
    HighestEndMeaning(regions);
    forall f: nat
      ensures f < ManagedFrames(regions, bitmap.Length) <==> IsManaged(regions, bitmap.Length, f)
    {
      ManagedMeaning(regions, bitmap.Length, f);
    }
    var highest := HighestOf(regions);
    var describable := if bitmap.Length * 64 < WORD then bitmap.Length * 64 else WORD - 1;
    var frames := if highest / FRAME_SIZE < describable then highest / FRAME_SIZE else describable;
    r := FrameAllocator.New(bitmap, 0, frames);
    ReleaseUsable(r.value, regions);
  }

  lemma UsableStep(regions: seq<MemoryRegion>, region: MemoryRegion)
    ensures forall f: nat :: InUsable(regions + [region], f) <==> InUsable(regions, f) || InRegion(region, f)
    ensures !region.kind.UsableAtHandoff() ==> forall f: nat :: !InRegion(region, f)
  {
    hide Containing;
    var all := regions + [region];
    forall f: nat
      ensures InUsable(all, f) <==> InUsable(regions, f) || InRegion(region, f)
    {
      if InUsable(regions, f) {
        var k :| 0 <= k < |regions| && InRegion(regions[k], f);
        assert all[k] == regions[k];
      }
      assert all[|regions|] == region;
    }
  }

  // ----- counting what is free

  function Clamp(f: nat, frames: nat): nat { if f < frames then f else frames }

  /** Managed frames of a region. */
  function ManagedIn(region: MemoryRegion, frames: nat): nat {
    if region.kind.UsableAtHandoff() then
      Clamp(Containing(region.start) + region.len / FRAME_SIZE, frames) - Clamp(Containing(region.start), frames)
    else 0
  }

  function UsableFrames(regions: seq<MemoryRegion>, frames: nat): nat {
    if regions == [] then 0
    else UsableFrames(regions[..|regions| - 1], frames) + ManagedIn(regions[|regions| - 1], frames)
  }

  /** The managed frames of usable regions. */
  ghost function UsableSet(regions: seq<MemoryRegion>, frames: nat): (s: set<nat>)
    ensures forall i: nat :: i in s <==> i < frames && InUsable(regions, i)
  {
    set i: nat | i < frames && InUsable(regions, i)
  }

  ghost function RegionSet(region: MemoryRegion, frames: nat): (s: set<nat>)
    ensures forall i: nat :: i in s <==> i < frames && InRegion(region, i)
    ensures |s| == ManagedIn(region, frames)
  {
    var lo := Clamp(Containing(region.start), frames);
    RunSet(lo, ManagedIn(region, frames))
  }

  /** On a validated map no frame is counted twice: the free frames are the sum over the regions. */
  lemma {:induction false} FreeFramesAreUsable(regions: seq<MemoryRegion>, frames: nat)
    requires Ordered(regions) && forall k :: 0 <= k < |regions| ==> WellFormed(regions[k])
    ensures |UsableSet(regions, frames)| == UsableFrames(regions, frames)
  {
    hide InUsable, InRegion, ManagedIn;
    if regions == [] {
      assert UsableSet(regions, frames) == {} by { NoRegions(); }
    } else {
      var n := |regions| - 1;
      var rest, last := regions[..n], regions[n];
      assert regions == rest + [last];
      FreeFramesAreUsable(rest, frames);
      UsableStep(rest, last);
      assert UsableSet(regions, frames) == UsableSet(rest, frames) + RegionSet(last, frames);
      forall i: nat | i in UsableSet(rest, frames)
        ensures i !in RegionSet(last, frames)
      {
        EarlierFrames(regions, i);
      }
    }
  }

  lemma NoRegions()
    ensures forall f: nat :: !InUsable([], f)
  {
  }

  /** A frame of an earlier region lies before the last one. */
  lemma EarlierFrames(regions: seq<MemoryRegion>, f: nat)
    requires regions != [] && Ordered(regions) && forall k :: 0 <= k < |regions| ==> WellFormed(regions[k])
    requires InUsable(regions[..|regions| - 1], f)
    ensures !InRegion(regions[|regions| - 1], f)
  {
    var n := |regions| - 1;
    var k :| 0 <= k < n && InRegion(regions[..n][k], f);
    assert regions[..n][k] == regions[k];
    assert WellFormed(regions[k]) && WellFormed(regions[n]);
    assert regions[k].start + regions[k].len <= regions[n].start;
  }

  /** What the allocator reports as free after reading a validated map. */
  lemma FreeAfterMap(a: FrameAllocator, regions: seq<MemoryRegion>)
    requires a.Valid() && ValidMap(regions)
    requires forall i: nat :: i in a.Taken() <==> i < a.frames && !InUsable(regions, i)
    ensures a.FreeFrames() == UsableFrames(regions, a.frames)
  {
    hide TakenIn, Words64, InUsable;
    FreeFramesAreUsable(regions, a.frames);
    var free := UsableSet(regions, a.frames);
    assert Below(a.frames) == a.Taken() + free;
    assert a.Taken() * free == {};
  }

  /** The usable bytes of a validated map are the bytes of its usable frames, each counted once. */
  lemma UsableBytesAreFrames(regions: seq<MemoryRegion>, frames: nat)
    requires Ordered(regions) && forall k :: 0 <= k < |regions| ==> WellFormed(regions[k])
    requires forall k :: 0 <= k < |regions| ==> regions[k].start + regions[k].len <= FRAME_SIZE * frames
    ensures UsableBytes(regions) == FRAME_SIZE * |UsableSet(regions, frames)|
  {
    FreeFramesAreUsable(regions, frames);
    BytesOfFrames(regions, frames);
  }

  lemma {:induction false} BytesOfFrames(regions: seq<MemoryRegion>, frames: nat)
    requires forall k :: 0 <= k < |regions| ==> WellFormed(regions[k])
    requires forall k :: 0 <= k < |regions| ==> regions[k].start + regions[k].len <= FRAME_SIZE * frames
    ensures UsableBytes(regions) == FRAME_SIZE * UsableFrames(regions, frames)
  {
    if regions != [] {
      var n := |regions| - 1;
      BytesOfFrames(regions[..n], frames);
      assert WellFormed(regions[n]);
    }
  }
}
