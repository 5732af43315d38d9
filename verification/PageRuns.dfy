/**
 Whole runs of the page-table builder: any sequence of single-page calls, accepted or refused, from a
 fresh table.
 */
module PageRuns {
  import opened Results
  import opened Arithmetic
  import opened PageEntry
  import opened PageTree
  import opened PageSteps
  import opened Paging

  datatype Call = Call(huge: bool, virtual: nat, physical: nat, permissions: Permissions)

  function SizeOf(c: Call): nat { if c.huge then HUGE_PAGE_SIZE else PAGE_SIZE }
  function PagesIn(c: Call): nat { if c.huge then 512 else 1 }
  predicate Aligned(c: Call) { c.virtual % SizeOf(c) == 0 && c.physical % SizeOf(c) == 0 }

  predicate Covers(c: Call, q: nat)
    requires q < PAGES
  {
    Offset(q, PageOf(c.virtual)) < PagesIn(c)
  }

  /** Where a call puts a page it covers. */
  function Target(c: Call, q: nat): Mapping
    requires q < PAGES
  {
    Mapping(c.physical + PAGE_SIZE * Offset(q, PageOf(c.virtual)), c.permissions)
  }

  function Chain(c: Call): set<Node> {
    if c.huge then HugeChain(PageOf(c.virtual)) else SmallChain(PageOf(c.virtual))
  }

  /** `r` and `b` are the outcome of making call `c` on `a`. */
  ghost predicate Made(a: Arena, b: Arena, frames: nat, c: Call, r: Result<Done, PagingError>) {
    if !Aligned(c) then r == Failure(Misaligned) && b == a
    else if c.huge then HugeOutcome(a, b, frames, PageOf(c.virtual), c.physical, c.permissions, r)
    else SmallOutcome(a, b, frames, PageOf(c.virtual), c.physical, c.permissions, r)
  }

  /** A run: the arena before and after each call, and each call's outcome. */
  ghost predicate Run(states: seq<Arena>, calls: seq<Call>, results: seq<Result<Done, PagingError>>, frames: nat) {
    && |states| == |calls| + 1 && |results| == |calls|
    && forall k :: 0 <= k < |calls| ==> Made(states[k], states[k + 1], frames, calls[k], results[k])
  }

  /** One call: refused, it changes no translation; accepted, it maps pages that were free. */
  lemma CallEffect(a: Arena, b: Arena, frames: nat, c: Call, r: Result<Done, PagingError>, q: nat)
    requires Made(a, b, frames, c, r) && q < PAGES
    ensures r.Failure? || !Covers(c, q) ==> Walk(b, q) == Walk(a, q)
    ensures r.Success? && Covers(c, q) ==> Walk(a, q).None? && Walk(b, q) == Some(Target(c, q))
  {
    hide Walk, TablesGrow;
    if r.Success? && Covers(c, q) {
      var page := PageOf(c.virtual);
      if c.huge {
        HugeAligned(c.virtual);
        BlockOfPage(page, q);
      } else {
        assert q == page;
      }
    }
  }

  /** `q` was mapped by an accepted call of the run. */
  ghost predicate Claimed(calls: seq<Call>, results: seq<Result<Done, PagingError>>, k: nat, q: nat)
    requires |results| == |calls| && k < |calls| && q < PAGES
  {
    results[k].Success? && Covers(calls[k], q)
  }

  /**
   The translation after a run is the accepted calls and nothing else: every page is claimed by at
   most one of them, which says what it translates to, and an unclaimed page does not translate.
   */
  lemma {:induction false} RunTranslation(states: seq<Arena>, calls: seq<Call>, results: seq<Result<Done, PagingError>>,
                                          frames: nat, q: nat)
    requires Run(states, calls, results, frames) && q < PAGES && Walk(states[0], q).None?
    ensures forall k: nat :: k < |calls| && Claimed(calls, results, k, q) ==>
              Walk(states[|calls|], q) == Some(Target(calls[k], q))
    ensures forall j: nat, k: nat :: j < k < |calls| ==>
              !(Claimed(calls, results, j, q) && Claimed(calls, results, k, q))
    ensures (forall k: nat :: k < |calls| ==> !Claimed(calls, results, k, q)) ==> Walk(states[|calls|], q).None?
    decreases |calls|
  {
    hide Walk, Made, Covers, Target;
    if |calls| > 0 {
      var n := |calls| - 1;
      var calls', results' := calls[..n], results[..n];
      var states' := states[..|calls|];
      assert states'[|calls'|] == states[n];
      RunTranslation(states', calls', results', frames, q);
      CallEffect(states[n], states[n + 1], frames, calls[n], results[n], q);
      assert forall k: nat :: k < n ==> Claimed(calls', results', k, q) == Claimed(calls, results, k, q);
      if forall k: nat :: k < |calls| ==> !Claimed(calls, results, k, q) {
        assert !Claimed(calls, results, n, q);
        assert forall k: nat :: k < n ==> !Claimed(calls', results', k, q);
      }
    }
  }

  /** Tables an accepted call of the run passes through. */
  ghost function ChainsOf(calls: seq<Call>, results: seq<Result<Done, PagingError>>): set<Node>
    requires |results| == |calls|
  {
    if calls == [] then {}
    else
      var n := |calls| - 1;
      ChainsOf(calls[..n], results[..n]) + (if results[n].Success? then Chain(calls[n]) else {})
  }

  lemma CallTables(a: Arena, b: Arena, frames: nat, c: Call, r: Result<Done, PagingError>)
    requires Made(a, b, frames, c, r)
    ensures r != Failure(ArenaExhausted) ==> b.tables.Keys == a.tables.Keys + (if r.Success? then Chain(c) else {})
  {
    hide Walk, Adds, SameWalk, BlockFree, SmallChain, HugeChain;
    if r.Failure? && r.error != ArenaExhausted { assert r.error.Conflict? || r.error.Misaligned?; }
  }

  /**
   Frames used count tables: while nothing ran out of arena, the tables are the first one and those
   above the pages of accepted calls, each counted once however many calls share it.
   */
  lemma {:induction false} RunTables(states: seq<Arena>, calls: seq<Call>, results: seq<Result<Done, PagingError>>,
                                     frames: nat)
    requires Run(states, calls, results, frames)
    requires forall k :: 0 <= k < |calls| ==> results[k] != Failure(ArenaExhausted)
    ensures states[|calls|].tables.Keys == states[0].tables.Keys + ChainsOf(calls, results)
    decreases |calls|
  {
    hide Made, Chain;
    if |calls| > 0 {
      var n := |calls| - 1;
      RunTables(states[..|calls|], calls[..n], results[..n], frames);
      CallTables(states[n], states[n + 1], frames, calls[n], results[n]);
    }
  }

  /** Makes the calls in turn, whatever each one answers. */
  method Replay(tables: PageTables, calls: seq<Call>)
    returns (results: seq<Result<Done, PagingError>>, ghost states: seq<Arena>)
    requires tables.Valid() && forall c :: c in calls ==> c.physical < PHYSICAL_LIMIT
    modifies tables`nextFrame, tables`tables, tables.arena
    ensures tables.Valid() && Run(states, calls, results, tables.arenaFrames)
    ensures states[0] == old(tables.State()) && states[|calls|] == tables.State()
  {
    hide SmallOutcome, HugeOutcome, PageTables.Valid;
    results, states := [], [tables.State()];
    for i := 0 to |calls|
      invariant tables.Valid() && |results| == i && |states| == i + 1
      invariant states[0] == old(tables.State()) && states[i] == tables.State()
      invariant forall k :: 0 <= k < i ==> Made(states[k], states[k + 1], tables.arenaFrames, calls[k], results[k])
    {
      var c := calls[i];
      assert c in calls;
      var r;
      if c.huge {
        r := tables.MapHugePage(c.virtual, c.physical, c.permissions);
      } else {
        r := tables.MapPage(c.virtual, c.physical, c.permissions);
      }
      results, states := results + [r], states + [tables.State()];
    }
  }

  // ----- the shape of the arena

  /** Entry `i` of table `m` is a link to the table in frame `f`. */
  ghost predicate LinksTo(a: Arena, m: Node, i: nat, f: nat)
    requires Indexed(a)
  {
    && m in a.tables && m.level >= 2 && i < 512
    && At(a, m, i) == Present(a.base + PAGE_SIZE * f, true, false, false)
  }

  /** Every table but the first is linked from exactly one entry: its own slot in its parent. */
  lemma LinkedOnce(a: Arena, n: Node)
    requires Tree(a) && n in a.tables && n != ROOT
    ensures LinksTo(a, Parent(n), n.prefix % 512, a.tables[n])
    ensures forall m, i: nat :: LinksTo(a, m, i, a.tables[n]) ==> m == Parent(n) && i == n.prefix % 512
  {
    hide Decode;
    assert Child(Parent(n), n.prefix % 512) == n;
    assert EntryOk(a, Parent(n), n.prefix % 512);
    forall m, i: nat | LinksTo(a, m, i, a.tables[n])
      ensures m == Parent(n) && i == n.prefix % 512
    {
      assert EntryOk(a, m, i);
      assert Child(m, i) in a.tables && a.tables[Child(m, i)] == a.tables[n];
      ParentOfChild(m, i);
    }
  }

  /** Nothing links to the first table, so a walk never comes back to it. */
  lemma RootUnlinked(a: Arena, m: Node, i: nat)
    requires Tree(a)
    ensures !LinksTo(a, m, i, 0)
  {
    hide Decode;
    if LinksTo(a, m, i, 0) { TreeEntry(a, m, i); }
  }

  /** Every frame taken holds a table: none is leaked. */
  lemma EveryFrameHeld(a: Arena, f: nat)
    requires Tree(a) && f < |a.tables|
    ensures exists n :: n in a.tables && a.tables[n] == f
  {
    hide EntryOk;
    var others := Below(|a.tables|) - {f};
    assert |others| == |a.tables| - 1;
    if forall n :: n in a.tables ==> a.tables[n] != f {
      Pigeonhole(a.tables, others);
    }
  }
}
