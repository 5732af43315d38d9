/**
 Whole runs of the frame allocator under a client that asks for contiguous frames and gives back only
 what it holds.
 */
module AllocatorRuns {
  import opened Results
  import opened Arithmetic
  import opened Frames

  /** Frames handed out together. */
  datatype Extent = Extent(start: nat, count: nat) {
    ghost function Frames(): set<nat> { RunSet(start, count) }
  }

  /** A client asks for frames, or gives back an extent it holds or `count` frames from the middle of one. */
  datatype Request = Want(count: nat) | Return(index: nat) | ReturnPart(index: nat, offset: nat, count: nat)

  /** Everything handed out and not yet returned. */
  ghost function Union(held: seq<Extent>): set<nat> {
    if held == [] then {} else Union(held[..|held| - 1]) + held[|held| - 1].Frames()
  }

  function Total(held: seq<Extent>): nat {
    if held == [] then 0 else Total(held[..|held| - 1]) + held[|held| - 1].count
  }

  /**
   The frames taken are those reserved plus those held, and no frame is in two of these at once: what
   is handed out never overlaps, and nothing reserved is handed out.
   */
  ghost predicate Consistent(taken: set<nat>, reserved: set<nat>, held: seq<Extent>) {
    && taken == reserved + Union(held)
    && (forall i :: 0 <= i < |held| ==> held[i].Frames() !! reserved)
    && (forall i, j :: 0 <= i < j < |held| ==> held[i].Frames() !! held[j].Frames())
  }

  function Without(held: seq<Extent>, k: nat): seq<Extent>
    requires k < |held|
  {
    held[..k] + held[k + 1..]
  }

  /** No run of `count` frames can be handed out. */
  ghost predicate Refused(taken: set<nat>, frames: nat, count: nat) {
    count == 0 || forall j: nat :: !FreeRun(taken, frames, j, count)
  }

  /** One request as the allocator answers it: served whenever it can be, and otherwise without effect. */
  ghost predicate Answered(taken: set<nat>, held: seq<Extent>, request: Request, taken': set<nat>, held': seq<Extent>,
                           frames: nat) {
    match request
    case Want(count) =>
      if Refused(taken, frames, count) then taken' == taken && held' == held
      else
        && |held'| == |held| + 1 && held' == held + [Extent(held'[|held|].start, count)]
        && FreeRun(taken, frames, held'[|held|].start, count)
        && taken' == taken + held'[|held|].Frames()
    case Return(index) =>
      if index >= |held| then taken' == taken && held' == held
      else held' == Without(held, index) && taken' == taken - held[index].Frames()
    case ReturnPart(index, offset, count) =>
      if !HasPart(held, index, offset, count) then taken' == taken && held' == held
      else held' == Parted(held, index, offset, count) && taken' == taken - Part(held[index], offset, count).Frames()
  }

  predicate HasPart(held: seq<Extent>, index: nat, offset: nat, count: nat) {
    index < |held| && offset + count <= held[index].count
  }

  /** The frames of an extent before, in and after a part of it. */
  function Before(e: Extent, offset: nat): Extent { Extent(e.start, offset) }

  function Part(e: Extent, offset: nat, count: nat): Extent { Extent(e.start + offset, count) }

  function Behind(e: Extent, offset: nat, count: nat): Extent
    requires offset + count <= e.count
  {
    Extent(e.start + offset + count, e.count - offset - count)
  }

  /** What is held once a part of extent `index` has been returned. */
  function Parted(held: seq<Extent>, index: nat, offset: nat, count: nat): seq<Extent>
    requires HasPart(held, index, offset, count)
  {
    Without(held, index) + [Before(held[index], offset)] + [Behind(held[index], offset, count)]
  }

  lemma {:induction false} UnionMembers(held: seq<Extent>, f: nat)
    ensures f in Union(held) <==> exists i :: 0 <= i < |held| && f in held[i].Frames()
  {
    hide Extent.Frames;
    if held != [] {
      var n := |held| - 1;
      UnionMembers(held[..n], f);
      if i :| 0 <= i < n && f in held[..n][i].Frames() {
        assert held[..n][i] == held[i];
      }
      if i :| 0 <= i < n && f in held[i].Frames() {
        assert held[..n][i] == held[i];
      }
    }
  }

  lemma TakeKeeps(taken: set<nat>, reserved: set<nat>, held: seq<Extent>, e: Extent)
    requires Consistent(taken, reserved, held) && e.Frames() !! taken
    ensures Consistent(taken + e.Frames(), reserved, held + [e])
  {
    hide RunSet;
    var held' := held + [e];
    assert held'[..|held|] == held;
    forall i | 0 <= i < |held|
      ensures held[i].Frames() <= taken
    {
      forall f | f in held[i].Frames()
        ensures f in taken
      {
        UnionMembers(held, f);
      }
    }
    forall i | 0 <= i < |held'|
      ensures held'[i].Frames() !! reserved
    {
      if i < |held| { assert held'[i] == held[i]; }
    }
    forall i, j | 0 <= i < j < |held'|
      ensures held'[i].Frames() !! held'[j].Frames()
    {
      assert held'[i] == held[i];
      if j < |held| { assert held'[j] == held[j]; }
    }
  }

  /** Where element `i` of the shortened list was. */
  function Skip(k: nat, i: nat): nat { if i < k then i else i + 1 }

  lemma WithoutUnion(held: seq<Extent>, k: nat, f: nat)
    requires k < |held| && forall i, j :: 0 <= i < j < |held| ==> held[i].Frames() !! held[j].Frames()
    ensures f in Union(Without(held, k)) <==> f in Union(held) && f !in held[k].Frames()
  {
    hide Extent.Frames;
    var rest := Without(held, k);
    UnionMembers(rest, f);
    UnionMembers(held, f);
    if i :| 0 <= i < |rest| && f in rest[i].Frames() {
      assert rest[i] == held[Skip(k, i)];
      assert held[Skip(k, i)].Frames() !! held[k].Frames();
    }
    if i :| 0 <= i < |held| && i != k && f in held[i].Frames() {
      assert rest[if i < k then i else i - 1] == held[i];
    }
  }

  lemma GiveKeeps(taken: set<nat>, reserved: set<nat>, held: seq<Extent>, k: nat)
    requires Consistent(taken, reserved, held) && k < |held|
    ensures Consistent(taken - held[k].Frames(), reserved, Without(held, k))
  {
    hide Extent.Frames, Union;
    var rest := Without(held, k);
    forall i | 0 <= i < |rest|
      ensures rest[i].Frames() !! reserved
    {
      assert rest[i] == held[Skip(k, i)];
    }
    forall i, j | 0 <= i < j < |rest|
      ensures rest[i].Frames() !! rest[j].Frames()
    {
      assert rest[i] == held[Skip(k, i)] && rest[j] == held[Skip(k, j)];
    }
    forall f: nat
      ensures f in Union(rest) <==> f in Union(held) && f !in held[k].Frames()
    {
      WithoutUnion(held, k, f);
    }
    assert taken - held[k].Frames() == reserved + Union(rest);
  }

  lemma FreeIsApart(taken: set<nat>, frames: nat, e: Extent)
    requires FreeRun(taken, frames, e.start, e.count)
    ensures e.Frames() !! taken
  {
    hide RunSet;
  }

  /** An extent is its part and the two ends around it. */
  lemma PartsOf(e: Extent, offset: nat, count: nat)
    requires offset + count <= e.count
    ensures
      var l, m, n := Before(e, offset).Frames(), Part(e, offset, count).Frames(), Behind(e, offset, count).Frames();
      e.Frames() == l + m + n && l !! m && m !! n && l !! n
  {
    hide RunSet;
  }

  lemma LeaveOut(t: set<nat>, e: set<nat>, l: set<nat>, m: set<nat>, n: set<nat>)
    requires e <= t && e == l + m + n && l !! m && m !! n && l !! n
    ensures m <= t && l !! t - e && n !! t - e + l && t - e + l + n == t - m
  {
  }

  /** Returning a part of an extent leaves its two ends held. */
  lemma PartKeeps(taken: set<nat>, reserved: set<nat>, held: seq<Extent>, index: nat, offset: nat, count: nat)
    requires Consistent(taken, reserved, held) && HasPart(held, index, offset, count)
    ensures Part(held[index], offset, count).Frames() <= taken
    ensures Consistent(taken - Part(held[index], offset, count).Frames(), reserved, Parted(held, index, offset, count))
  {
    hide Extent.Frames, Consistent, Without, Before, Part, Behind;
    var e := held[index];
    var l, m, n := Before(e, offset), Part(e, offset, count), Behind(e, offset, count);
    HeldIsTaken(taken, reserved, held, index);
    PartsOf(e, offset, count);
    LeaveOut(taken, e.Frames(), l.Frames(), m.Frames(), n.Frames());
    GiveKeeps(taken, reserved, held, index);
    TakeKeeps(taken - e.Frames(), reserved, Without(held, index), l);
    TakeKeeps(taken - e.Frames() + l.Frames(), reserved, Without(held, index) + [l], n);
  }

  /** What the client sees of the allocator at one moment. */
  datatype View = View(taken: set<nat>, held: seq<Extent>)

  ghost predicate Trace(views: seq<View>, requests: seq<Request>, frames: nat) {
    && |views| == |requests| + 1
    && forall k :: 0 <= k < |requests| ==>
         Answered(views[k].taken, views[k].held, requests[k], views[k + 1].taken, views[k + 1].held, frames)
  }

  lemma AnswerKeeps(taken: set<nat>, held: seq<Extent>, request: Request, taken': set<nat>, held': seq<Extent>,
                    frames: nat, reserved: set<nat>)
    requires Answered(taken, held, request, taken', held', frames) && Consistent(taken, reserved, held)
    ensures Consistent(taken', reserved, held')
  {
    hide Consistent, Refused, RunSet, FreeRun, Without, Extent.Frames, Parted, Part, HasPart;
    match request
    case Want(count) =>
      if !Refused(taken, frames, count) {
        FreeIsApart(taken, frames, held'[|held|]);
        TakeKeeps(taken, reserved, held, held'[|held|]);
      }
    case Return(index) =>
      if index < |held| { GiveKeeps(taken, reserved, held, index); }
    case ReturnPart(index, offset, count) =>
      if HasPart(held, index, offset, count) { PartKeeps(taken, reserved, held, index, offset, count); }
  }

  /** Over every run, whatever is outstanding stays pairwise disjoint and apart from what is reserved. */
  lemma {:induction false} RunKeepsConsistent(views: seq<View>, requests: seq<Request>, frames: nat, reserved: set<nat>)
    requires Trace(views, requests, frames) && Consistent(views[0].taken, reserved, views[0].held)
    ensures Consistent(views[|requests|].taken, reserved, views[|requests|].held)
    decreases |requests|
  {
    hide Consistent, Refused;
    if |requests| > 0 {
      var n := |requests| - 1;
      var before, after := views[n], views[n + 1];
      RunKeepsConsistent(views[..|requests|], requests[..n], frames, reserved);
      AnswerKeeps(before.taken, before.held, requests[n], after.taken, after.held, frames, reserved);
    }
  }

  /** Conservation: frames in use are those reserved plus those outstanding, counted once each. */
  lemma {:induction false} OutstandingCounted(taken: set<nat>, reserved: set<nat>, held: seq<Extent>)
    requires Consistent(taken, reserved, held)
    ensures |taken| == |reserved| + Total(held)
    decreases |held|
  {
    hide RunSet;
    if held == [] {
      assert taken == reserved;
    } else {
      var n := |held| - 1;
      var last := held[n].Frames();
      assert Without(held, n) == held[..n];
      GiveKeeps(taken, reserved, held, n);
      OutstandingCounted(taken - last, reserved, held[..n]);
      assert |last| == held[n].count;
      assert last <= taken;
      assert taken == (taken - last) + last;
    }
  }

  /** Whatever it split and returned on the way, a client that holds no frame leaves what was reserved. */
  lemma {:induction false} AllReturned(taken: set<nat>, reserved: set<nat>, held: seq<Extent>)
    requires Consistent(taken, reserved, held) && Total(held) == 0
    ensures taken == reserved
  {
    hide RunSet, Union, Extent.Frames;
    OutstandingCounted(taken, reserved, held);
    if f :| f in taken && f !in reserved {
      SubsetSize(reserved + {f}, taken);
    }
  }

  /** Asks for `count` frames; what is handed out, if anything, was free. */
  method ServeWant(a: FrameAllocator, count: nat) returns (r: Option<Extent>)
    requires a.Valid()
    modifies a`allocatedCount, a`cursor, a.bitmap
    ensures a.Valid()
    ensures r.None? <==> Refused(old(a.Taken()), a.frames, count)
    ensures r.None? ==> a.Taken() == old(a.Taken())
    ensures r.Some? ==>
              && r.value.count == count && FreeRun(old(a.Taken()), a.frames, r.value.start, count)
              && a.Taken() == old(a.Taken()) + r.value.Frames()
  {
    hide TakenIn, FrameAllocator.Valid, FrameAllocator.WellFormed, Chosen, RunSet;
    a.ValidShape();
    ghost var before := a.Taken();
    var found := a.AllocateContiguous(count);
    if found.Failure? {
      return None;
    }
    ChosenIsFree(before, a.frames, found.value - a.base, count);
    r := Some(Extent(found.value - a.base, count));
  }

  /** Gives back frames that are all taken, a single one with `free`. */
  method ServeReturn(a: FrameAllocator, e: Extent)
    requires a.Valid() && e.Frames() <= a.Taken()
    modifies a`allocatedCount, a`cursor, a.bitmap
    ensures a.Valid() && a.Taken() == old(a.Taken()) - e.Frames()
  {
    hide TakenIn, FrameAllocator.Valid, FrameAllocator.WellFormed, RunSet;
    a.ValidShape();
    ghost var before := a.Taken();
    if e.count == 1 {
      SingleFrame(e);
      a.TakenAreManaged();
      var _ := a.Free(a.base + e.start);
    } else {
      var r := a.FreeContiguous(a.base + e.start, e.count);
      FreedSet(a, before, e, r);
    }
  }

  lemma SingleFrame(e: Extent)
    requires e.count == 1
    ensures e.Frames() == {e.start}
  {
    hide RunSet;
  }

  /** Allocating and giving back restores the set of taken frames. */
  method BorrowAndReturn(a: FrameAllocator, count: nat)
    requires a.Valid()
    modifies a`allocatedCount, a`cursor, a.bitmap
    ensures a.Valid() && a.Taken() == old(a.Taken())
  {
    hide TakenIn, FrameAllocator.Valid, FrameAllocator.WellFormed, RunSet;
    a.ValidShape();
    ghost var before := a.Taken();
    var e := ServeWant(a, count);
    if e.Some? {
      assert e.value.Frames() !! before;
      ServeReturn(a, e.value);
      assert a.Taken() == before;
    }
  }

  /** Serves one request. A request to return something not held is ignored. */
  method ServeOne(a: FrameAllocator, request: Request, held: seq<Extent>, ghost reserved: set<nat>)
    returns (held': seq<Extent>)
    requires a.Valid() && Consistent(a.Taken(), reserved, held)
    modifies a`allocatedCount, a`cursor, a.bitmap
    ensures a.Valid() && Consistent(a.Taken(), reserved, held')
    ensures Answered(old(a.Taken()), held, request, a.Taken(), held', a.frames)
  {
    hide Extent.Frames, Consistent, TakenIn, FrameAllocator.Valid, FrameAllocator.WellFormed, FreeRun, Without;
    hide Refused, Part, Parted;
    a.ValidShape();
    ghost var before := a.Taken();
    held' := held;
    match request {
      case Want(count) =>
        var r := ServeWant(a, count);
        if r.Some? {
          FreeIsApart(before, a.frames, r.value);
          TakeKeeps(before, reserved, held, r.value);
          held' := held + [r.value];
        }
      case Return(index) =>
        if index < |held| {
          HeldIsTaken(before, reserved, held, index);
          GiveKeeps(before, reserved, held, index);
          ServeReturn(a, held[index]);
          held' := Without(held, index);
        }
      case ReturnPart(index, offset, count) =>
        if HasPart(held, index, offset, count) {
          PartKeeps(before, reserved, held, index, offset, count);
          ServeReturn(a, Part(held[index], offset, count));
          held' := Parted(held, index, offset, count);
        }
    }
  }

  /** Serves the requests in turn. */
  method Serve(a: FrameAllocator, requests: seq<Request>) returns (held: seq<Extent>, ghost views: seq<View>)
    requires a.Valid()
    modifies a`allocatedCount, a`cursor, a.bitmap
    ensures a.Valid() && Trace(views, requests, a.frames)
    ensures views[0] == View(old(a.Taken()), []) && views[|requests|] == View(a.Taken(), held)
    ensures Consistent(a.Taken(), old(a.Taken()), held) && |a.Taken()| == |old(a.Taken())| + Total(held)
    ensures Total(held) == 0 ==> a.Taken() == old(a.Taken())
  {
    hide Consistent, Answered, TakenIn, FrameAllocator.Valid, FrameAllocator.WellFormed;
    a.ValidShape();
    held := [];
    ghost var reserved := a.Taken();
    views := [View(a.Taken(), held)];
    NothingHeld(reserved);
    for k := 0 to |requests|
      invariant a.Valid() && a.frames <= 64 * a.bitmap.Length && |views| == k + 1
      invariant views[0] == View(reserved, []) && views[k] == View(a.Taken(), held)
      invariant Consistent(a.Taken(), reserved, held)
      invariant forall j :: 0 <= j < k ==>
                  Answered(views[j].taken, views[j].held, requests[j], views[j + 1].taken, views[j + 1].held, a.frames)
    {
      held := ServeOne(a, requests[k], held, reserved);
      views := views + [View(a.Taken(), held)];
    }
    OutstandingCounted(a.Taken(), reserved, held);
    if Total(held) == 0 { AllReturned(a.Taken(), reserved, held); }
  }

  lemma NothingHeld(reserved: set<nat>)
    ensures Consistent(reserved, reserved, [])
  {
  }

  lemma ChosenIsFree(taken: set<nat>, frames: nat, i: nat, count: nat)
    requires exists cursor :: Chosen(taken, frames, cursor, i, count)
    ensures FreeRun(taken, frames, i, count)
  {
  }

  lemma HeldIsTaken(taken: set<nat>, reserved: set<nat>, held: seq<Extent>, k: nat)
    requires Consistent(taken, reserved, held) && k < |held|
    ensures held[k].Frames() <= taken
  {
    forall f | f in held[k].Frames()
      ensures f in taken
    {
      UnionMembers(held, f);
    }
  }

  lemma FreedSet(a: FrameAllocator, before: set<nat>, e: Extent, r: Result<Done, MemoryError>)
    requires a.frames <= 64 * a.bitmap.Length && e.Frames() <= before
    requires r.Success? <==> forall f: nat :: a.base + e.start <= f < a.base + e.start + e.count ==> a.HeldIn(before, f)
    requires r.Success? ==> forall i: nat :: i in a.Taken() <==>
              i in before && !(a.base + e.start <= a.base + i < a.base + e.start + e.count)
    ensures r.Success? && a.Taken() == before - e.Frames()
  {
    hide TakenIn;
  }
}
