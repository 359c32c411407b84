/**
The sleep-mode allocator on ROCm (vllm/csrc/cumem_allocator.cpp, `create_and_map` and `unmap_and_release`).

An allocation is one reserved address range backed by several chunks of device memory. `CreateAndMap` backs it
(waking up), `UnmapAndRelease` takes the backing away while the range stays reserved (going to sleep).
The driver is modelled by its visible state and by arbitrary lists of what it answers to its calls.
*/
module CumemAllocator {
  import opened ChunkPlan

  datatype Mapping = Mapping(size: nat, handle: nat)

  // ----- what the driver answers -----

  /** The status of the driver's `c`-th call; 0 is success, also for calls behind the end of the list. */
  function Status(fate: seq<int>, c: nat): int {
    if c < |fate| then fate[c] else 0
  }

  /** Where the driver puts a range: where it is wished for, or elsewhere. */
  datatype Placement = AsWished | At(addr: nat)

  /** The address of the range that the driver's `c`-th call reserves. */
  function Placed(placement: seq<Placement>, c: nat, wish: nat): nat {
    if c < |placement| && placement[c].At? then placement[c].addr else wish
  }

  /** The number that the driver hands out in its `c`-th call. */
  function Given(numbers: seq<nat>, c: nat): nat {
    if c < |numbers| then numbers[c] else 0
  }

  // ----- addresses, tiles and handles of an allocation -----

  /** Where chunk `i` begins, from the start of the range. */
  function Offset(chunks: seq<nat>, i: nat): nat
    requires i <= |chunks|
  {
    if i == 0 then 0 else Offset(chunks, i - 1) + chunks[i - 1]
  }

  lemma {:induction false} OffsetIsSum(chunks: seq<nat>, i: nat)
    requires i <= |chunks|
    ensures Offset(chunks, i) == Sum(chunks[..i])
  {
    if i > 0 {
      OffsetIsSum(chunks, i - 1);
      assert chunks[..i][..i - 1] == chunks[..i - 1];
    }
  }

  lemma OffsetOfAll(chunks: seq<nat>)
    ensures Offset(chunks, |chunks|) == Sum(chunks)
  {
    OffsetIsSum(chunks, |chunks|);
    assert chunks[..|chunks|] == chunks;
  }

  predicate Positive(chunks: seq<nat>) {
    forall i | 0 <= i < |chunks| :: 0 < chunks[i]
  }

  lemma {:induction false} OffsetsIncrease(chunks: seq<nat>, i: nat, j: nat)
    requires Positive(chunks) && i < j <= |chunks|
    ensures Offset(chunks, i) + chunks[i] <= Offset(chunks, j)
    decreases j - i
  {
    if i < j - 1 {
      OffsetsIncrease(chunks, i, j - 1);
    }
  }

  /** The `rest` and mappings of the first `n` chunks, back to back from `base`. */
  function Tiles(rest: map<nat, Mapping>, base: nat, chunks: seq<nat>, handles: seq<nat>, n: nat): map<nat, Mapping>
    requires n <= |chunks| == |handles|
  {
    if n == 0 then rest
    else Tiles(rest, base, chunks, handles, n - 1)[base + Offset(chunks, n - 1) := Mapping(chunks[n - 1], handles[n - 1])]
  }

  /** The `rest` and handles of the first `n` chunks, with their sizes. */
  function Backing(rest: map<nat, nat>, chunks: seq<nat>, handles: seq<nat>, n: nat): map<nat, nat>
    requires n <= |chunks| == |handles|
  {
    if n == 0 then rest else Backing(rest, chunks, handles, n - 1)[handles[n - 1] := chunks[n - 1]]
  }

  /** All driver calls from `first` up to `last` succeed. */
  predicate Fine(fate: seq<int>, first: nat, last: nat) {
    first < last ==> Status(fate, last - 1) == 0 && Fine(fate, first, last - 1)
  }

  lemma {:induction false} FineSplit(fate: seq<int>, first: nat, mid: nat, last: nat)
    requires first <= mid <= last
    ensures Fine(fate, first, last) <==> Fine(fate, first, mid) && Fine(fate, mid, last)
  {
    if mid < last {
      FineSplit(fate, first, mid, last - 1);
    }
  }

  lemma {:induction false} FineMeans(fate: seq<int>, first: nat, last: nat)
    ensures Fine(fate, first, last) <==> forall c | first <= c < last :: Status(fate, c) == 0
  {
    if first < last {
      FineMeans(fate, first, last - 1);
    }
  }

  /** Chunk `i` has been given back: it is one of the first `done`, and its call, counted from `first`, succeeded. */
  predicate Gone(fate: seq<int>, first: nat, done: nat, i: nat) {
    i < done && Status(fate, first + i) == 0
  }

  /** The mappings left once calls from `first` on have tried to unmap the first `done` chunks. */
  function TilesLeft(rest: map<nat, Mapping>, fate: seq<int>, first: nat, done: nat, base: nat, chunks: seq<nat>,
                     handles: seq<nat>, n: nat): map<nat, Mapping>
    requires n <= |chunks| == |handles|
  {
    if n == 0 then rest
    else if Gone(fate, first, done, n - 1) then TilesLeft(rest, fate, first, done, base, chunks, handles, n - 1)
    else TilesLeft(rest, fate, first, done, base, chunks, handles, n - 1)
         [base + Offset(chunks, n - 1) := Mapping(chunks[n - 1], handles[n - 1])]
  }

  /** The handles left once calls from `first` on have tried to release the first `done` chunks. */
  function BackingLeft(rest: map<nat, nat>, fate: seq<int>, first: nat, done: nat, chunks: seq<nat>,
                       handles: seq<nat>, n: nat): map<nat, nat>
    requires n <= |chunks| == |handles|
  {
    if n == 0 then rest
    else if Gone(fate, first, done, n - 1) then BackingLeft(rest, fate, first, done, chunks, handles, n - 1)
    else BackingLeft(rest, fate, first, done, chunks, handles, n - 1)[handles[n - 1] := chunks[n - 1]]
  }

  predicate Differ(h: nat, k: nat) {
    h != k
  }

  predicate DistinctHandles(handles: seq<nat>, n: nat) {
    n <= |handles| && forall i, j {:trigger Differ(handles[i], handles[j])} | 0 <= i < j < n :: Differ(handles[i], handles[j])
  }

  /** The mappings that overlap a range of addresses. */
  function InTheWay(mappings: map<nat, Mapping>, addr: nat, size: nat): set<nat> {
    set a | a in mappings && (a == addr || (addr < a + mappings[a].size && a < addr + size))
  }

  /** Nothing is mapped in a range of addresses. */
  predicate Clear(mappings: map<nat, Mapping>, addr: nat, size: nat) {
    InTheWay(mappings, addr, size) == {}
  }

  lemma ClearAt(mappings: map<nat, Mapping>, addr: nat, size: nat, a: nat)
    requires Clear(mappings, addr, size) && a in mappings
    ensures a != addr && (a + mappings[a].size <= addr || addr + size <= a)
  {
    assert a !in InTheWay(mappings, addr, size);
  }

  predicate TileIsClear(rest: map<nat, Mapping>, base: nat, chunks: seq<nat>, i: nat)
    requires i < |chunks|
  {
    Clear(rest, base + Offset(chunks, i), chunks[i])
  }

  /** Nothing else is mapped where the first `n` tiles are. */
  predicate TilesAreClear(rest: map<nat, Mapping>, base: nat, chunks: seq<nat>, n: nat)
    requires n <= |chunks|
  {
    forall i {:trigger TileIsClear(rest, base, chunks, i)} | 0 <= i < n :: TileIsClear(rest, base, chunks, i)
  }

  predicate HandleIsNew(rest: map<nat, nat>, h: nat) {
    h !in rest
  }

  predicate HandlesAreNew(rest: map<nat, nat>, handles: seq<nat>, n: nat) {
    n <= |handles| && forall i {:trigger HandleIsNew(rest, handles[i])} | 0 <= i < n :: HandleIsNew(rest, handles[i])
  }

  // ----- giving chunks back, one by one -----

  lemma {:induction false} NothingGone(tiles: map<nat, Mapping>, backing: map<nat, nat>, fate: seq<int>, first: nat,
                                       base: nat, chunks: seq<nat>, handles: seq<nat>, n: nat)
    requires n <= |chunks| == |handles|
    ensures TilesLeft(tiles, fate, first, 0, base, chunks, handles, n) == Tiles(tiles, base, chunks, handles, n)
    ensures BackingLeft(backing, fate, first, 0, chunks, handles, n) == Backing(backing, chunks, handles, n)
  {
    if n > 0 {
      NothingGone(tiles, backing, fate, first, base, chunks, handles, n - 1);
    }
  }

  lemma {:induction false} AllGone(tiles: map<nat, Mapping>, backing: map<nat, nat>, fate: seq<int>, first: nat,
                                   done: nat, base: nat, chunks: seq<nat>, handles: seq<nat>, n: nat)
    requires n <= done && n <= |chunks| == |handles| && Fine(fate, first, first + n)
    ensures TilesLeft(tiles, fate, first, done, base, chunks, handles, n) == tiles
    ensures BackingLeft(backing, fate, first, done, chunks, handles, n) == backing
  {
    if n > 0 {
      AllGone(tiles, backing, fate, first, done, base, chunks, handles, n - 1);
    }
  }

  /** The chunks below `n` do not notice what is done from `n` on. */
  lemma {:induction false} LaterIsNoMatter(tiles: map<nat, Mapping>, backing: map<nat, nat>, fate: seq<int>,
                                           first: nat, done: nat, base: nat, chunks: seq<nat>, handles: seq<nat>,
                                           n: nat)
    requires n <= done && n <= |chunks| == |handles|
    ensures TilesLeft(tiles, fate, first, done, base, chunks, handles, n)
            == TilesLeft(tiles, fate, first, done + 1, base, chunks, handles, n)
    ensures BackingLeft(backing, fate, first, done, chunks, handles, n) == BackingLeft(backing, fate, first, done + 1, chunks, handles, n)
  {
    if n > 0 {
      LaterIsNoMatter(tiles, backing, fate, first, done, base, chunks, handles, n - 1);
    }
  }

  lemma {:induction false} TilesLeftBelow(rest: map<nat, Mapping>, fate: seq<int>, first: nat, done: nat, base: nat,
                                          chunks: seq<nat>, handles: seq<nat>, n: nat, a: nat)
    requires Positive(chunks) && n <= |chunks| == |handles|
    requires a in TilesLeft(rest, fate, first, done, base, chunks, handles, n)
    ensures a in rest || a < base + Offset(chunks, n)
  {
    if n > 0 && a in TilesLeft(rest, fate, first, done, base, chunks, handles, n - 1) {
      TilesLeftBelow(rest, fate, first, done, base, chunks, handles, n - 1, a);
    }
  }

  lemma {:induction false} BackingLeftOnly(rest: map<nat, nat>, fate: seq<int>, first: nat, done: nat,
                                           chunks: seq<nat>, handles: seq<nat>, n: nat, h: nat)
    requires n <= |chunks| == |handles| && h in BackingLeft(rest, fate, first, done, chunks, handles, n)
    ensures h in rest || exists j | 0 <= j < n :: handles[j] == h
  {
    if n > 0 && h in BackingLeft(rest, fate, first, done, chunks, handles, n - 1) {
      BackingLeftOnly(rest, fate, first, done, chunks, handles, n - 1, h);
    }
  }

  /** Unmapping chunk `j` takes its tile away, or leaves everything as it is. */
  lemma {:induction false} NextTile(rest: map<nat, Mapping>, fate: seq<int>, first: nat, j: nat, base: nat,
                                    chunks: seq<nat>, handles: seq<nat>, n: nat)
    requires Positive(chunks) && j < n <= |chunks| == |handles| && TilesAreClear(rest, base, chunks, n)
    ensures var a, left := base + Offset(chunks, j), TilesLeft(rest, fate, first, j, base, chunks, handles, n);
            && a in left && left[a] == Mapping(chunks[j], handles[j])
            && TilesLeft(rest, fate, first, j + 1, base, chunks, handles, n) == if Status(fate, first + j) == 0 then left - {a} else left
  {
    var a := base + Offset(chunks, j);
    assert TileIsClear(rest, base, chunks, j);
    if j == n - 1 {
      LaterIsNoMatter(rest, map[], fate, first, j, base, chunks, handles, j);
      if a in TilesLeft(rest, fate, first, j, base, chunks, handles, j) {
        TilesLeftBelow(rest, fate, first, j, base, chunks, handles, j, a);
      }
    } else {
      NextTile(rest, fate, first, j, base, chunks, handles, n - 1);
      OffsetsIncrease(chunks, j, n - 1);
    }
  }

  /** Releasing chunk `j` takes its handle away, or leaves everything as it is. */
  lemma {:induction false} NextHandle(rest: map<nat, nat>, fate: seq<int>, first: nat, j: nat, chunks: seq<nat>,
                                      handles: seq<nat>, n: nat)
    requires DistinctHandles(handles, n) && j < n <= |chunks| == |handles| && HandlesAreNew(rest, handles, n)
    ensures var h, left := handles[j], BackingLeft(rest, fate, first, j, chunks, handles, n);
            && h in left
            && BackingLeft(rest, fate, first, j + 1, chunks, handles, n) == if Status(fate, first + j) == 0 then left - {h} else left
  {
    assert HandleIsNew(rest, handles[j]);
    if j == n - 1 {
      LaterIsNoMatter(map[], rest, fate, first, j, 0, chunks, handles, j);
      if handles[j] in BackingLeft(rest, fate, first, j, chunks, handles, j) {
        BackingLeftOnly(rest, fate, first, j, chunks, handles, j, handles[j]);
        assert forall i | 0 <= i < j :: Differ(handles[i], handles[j]);
      }
    } else {
      assert Differ(handles[j], handles[n - 1]);
      NextHandle(rest, fate, first, j, chunks, handles, n - 1);
    }
  }

  // ----- access rights -----

  /** The addresses of a range. */
  function Span(addr: nat, size: nat): (r: set<nat>)
    ensures forall x :: x in r <==> addr <= x < addr + size
  {
    if size == 0 then {} else Span(addr, size - 1) + {addr + size - 1}
  }

  /** The addresses still accessible once calls from `first` on have tried to unmap the first `done` chunks. */
  function AccessLeft(access: set<nat>, fate: seq<int>, first: nat, done: nat, base: nat, chunks: seq<nat>, n: nat): set<nat>
    requires n <= |chunks|
  {
    if n == 0 then access
    else if Gone(fate, first, done, n - 1)
    then AccessLeft(access, fate, first, done, base, chunks, n - 1) - Span(base + Offset(chunks, n - 1), chunks[n - 1])
    else AccessLeft(access, fate, first, done, base, chunks, n - 1)
  }

  lemma {:induction false} NoAccessGone(access: set<nat>, fate: seq<int>, first: nat, base: nat, chunks: seq<nat>, n: nat)
    requires n <= |chunks|
    ensures AccessLeft(access, fate, first, 0, base, chunks, n) == access
  {
    if n > 0 {
      NoAccessGone(access, fate, first, base, chunks, n - 1);
    }
  }

  lemma {:induction false} LaterAccess(access: set<nat>, fate: seq<int>, first: nat, done: nat, base: nat,
                                       chunks: seq<nat>, n: nat)
    requires n <= done && n <= |chunks|
    ensures AccessLeft(access, fate, first, done, base, chunks, n) == AccessLeft(access, fate, first, done + 1, base, chunks, n)
  {
    if n > 0 {
      LaterAccess(access, fate, first, done, base, chunks, n - 1);
    }
  }

  /** Unmapping chunk `j` takes the access to its tile away, or leaves everything as it is. */
  lemma {:induction false} NextAccess(access: set<nat>, fate: seq<int>, first: nat, j: nat, base: nat, chunks: seq<nat>, n: nat)
    requires j < n <= |chunks|
    ensures var left, tile := AccessLeft(access, fate, first, j, base, chunks, n), Span(base + Offset(chunks, j), chunks[j]);
            AccessLeft(access, fate, first, j + 1, base, chunks, n) == if Status(fate, first + j) == 0 then left - tile else left
  {
    if j == n - 1 {
      LaterAccess(access, fate, first, j, base, chunks, j);
    } else {
      NextAccess(access, fate, first, j, base, chunks, n - 1);
    }
  }

  lemma JoinSpans(access: set<nat>, base: nat, a: nat, b: nat)
    ensures access - Span(base, a) - Span(base + a, b) == access - Span(base, a + b)
  {
  }

  lemma {:induction false} AllAccessGone(access: set<nat>, fate: seq<int>, first: nat, done: nat, base: nat,
                                         chunks: seq<nat>, n: nat)
    requires n <= done && n <= |chunks| && Fine(fate, first, first + n)
    ensures AccessLeft(access, fate, first, done, base, chunks, n) == access - Span(base, Offset(chunks, n))
  {
    if n > 0 {
      AllAccessGone(access, fate, first, done, base, chunks, n - 1);
      JoinSpans(access, base, Offset(chunks, n - 1), chunks[n - 1]);
    }
  }

  /** What is accessible after `k` alternating steps: the range, too, while awake, and nothing of it once asleep again. */
  function AccessAfter(k: nat, access: set<nat>, range: set<nat>): set<nat> {
    if k == 0 then access else if k % 2 == 1 then access + range else access - range
  }

  lemma AccessStep(k: nat, access: set<nat>, range: set<nat>)
    ensures AccessAfter(k + 1, access, range)
            == if k % 2 == 0 then AccessAfter(k, access, range) + range else AccessAfter(k, access, range) - range
  {
  }

  // ----- taking chunks, one by one -----

  /** The functions depend on the first `n` handles only. */
  lemma {:induction false} SameBacking(rest: map<nat, nat>, chunks: seq<nat>, handles: seq<nat>, others: seq<nat>, n: nat)
    requires n <= |chunks| == |handles| == |others| && forall i | 0 <= i < n :: handles[i] == others[i]
    ensures Backing(rest, chunks, handles, n) == Backing(rest, chunks, others, n)
  {
    if n > 0 {
      SameBacking(rest, chunks, handles, others, n - 1);
    }
  }

  lemma {:induction false} BackingKeeps(rest: map<nat, nat>, chunks: seq<nat>, handles: seq<nat>, n: nat, h: nat)
    requires n <= |chunks| == |handles| && h in rest
    ensures h in Backing(rest, chunks, handles, n)
  {
    if n > 0 {
      BackingKeeps(rest, chunks, handles, n - 1, h);
    }
  }

  lemma {:induction false} BackingHas(rest: map<nat, nat>, chunks: seq<nat>, handles: seq<nat>, n: nat, j: nat)
    requires j < n <= |chunks| == |handles|
    ensures handles[j] in Backing(rest, chunks, handles, n)
  {
    if j < n - 1 {
      BackingHas(rest, chunks, handles, n - 1, j);
    }
  }

  lemma {:induction false} BackingOnly(rest: map<nat, nat>, chunks: seq<nat>, handles: seq<nat>, n: nat, h: nat)
    requires n <= |chunks| == |handles| && h in Backing(rest, chunks, handles, n)
    ensures h in rest || exists j | 0 <= j < n :: handles[j] == h
  {
    if n > 0 && h != handles[n - 1] {
      BackingOnly(rest, chunks, handles, n - 1, h);
    }
  }

  lemma {:induction false} BackingSize(rest: map<nat, nat>, chunks: seq<nat>, handles: seq<nat>, n: nat, j: nat)
    requires j < n <= |chunks| == |handles| && DistinctHandles(handles, n)
    ensures var backing := Backing(rest, chunks, handles, n); handles[j] in backing && backing[handles[j]] == chunks[j]
  {
    if j < n - 1 {
      BackingSize(rest, chunks, handles, n - 1, j);
      assert Differ(handles[j], handles[n - 1]);
    }
  }

  /** A new handle joins the backing. */
  lemma AddHandle(rest: map<nat, nat>, chunks: seq<nat>, before: seq<nat>, handles: seq<nat>, i: nat, handle: nat)
    requires i < |chunks| == |before| == |handles|
    requires forall j | 0 <= j < i :: handles[j] == before[j]
    requires DistinctHandles(before, i) && HandlesAreNew(rest, before, i)
    ensures Backing(rest, chunks, handles, i) == Backing(rest, chunks, before, i)
    ensures DistinctHandles(handles, i) && HandlesAreNew(rest, handles, i)
    ensures handles[i] == handle && handle !in Backing(rest, chunks, before, i) ==>
              && DistinctHandles(handles, i + 1) && HandlesAreNew(rest, handles, i + 1)
              && (Backing(rest, chunks, before, i))[handle := chunks[i]] == Backing(rest, chunks, handles, i + 1)
  {
    SameBacking(rest, chunks, handles, before, i);
    if handle in rest { BackingKeeps(rest, chunks, before, i, handle); }
    forall j | 0 <= j < i ensures handles[j] in Backing(rest, chunks, before, i) && HandleIsNew(rest, handles[j]) {
      BackingHas(rest, chunks, handles, i, j);
      assert HandleIsNew(rest, before[j]);
    }
    forall j, k | 0 <= j < k < i ensures Differ(handles[j], handles[k]) {
      assert Differ(before[j], before[k]);
    }
  }

  lemma {:induction false} TileHas(rest: map<nat, Mapping>, base: nat, chunks: seq<nat>, handles: seq<nat>, n: nat, i: nat)
    requires Positive(chunks) && i < n <= |chunks| == |handles|
    ensures var a, tiles := base + Offset(chunks, i), Tiles(rest, base, chunks, handles, n);
            a in tiles && tiles[a] == Mapping(chunks[i], handles[i])
  {
    if i < n - 1 {
      TileHas(rest, base, chunks, handles, n - 1, i);
      OffsetsIncrease(chunks, i, n - 1);
    }
  }

  lemma {:induction false} TileIsOne(rest: map<nat, Mapping>, base: nat, chunks: seq<nat>, handles: seq<nat>, n: nat,
                                     a: nat) returns (i: nat)
    requires Positive(chunks) && n <= |chunks| == |handles| && a in Tiles(rest, base, chunks, handles, n) && a !in rest
    ensures i < n && a == base + Offset(chunks, i) && Tiles(rest, base, chunks, handles, n)[a] == Mapping(chunks[i], handles[i])
    ensures a + chunks[i] <= base + Offset(chunks, n)
  {
    if a == base + Offset(chunks, n - 1) {
      i := n - 1;
    } else {
      i := TileIsOne(rest, base, chunks, handles, n - 1, a);
    }
  }

  lemma {:induction false} RestStays(rest: map<nat, Mapping>, base: nat, chunks: seq<nat>, handles: seq<nat>, n: nat, a: nat)
    requires n <= |chunks| == |handles| && TilesAreClear(rest, base, chunks, n) && a in rest
    ensures var tiles := Tiles(rest, base, chunks, handles, n); a in tiles && tiles[a] == rest[a]
  {
    if n > 0 {
      RestStays(rest, base, chunks, handles, n - 1, a);
      assert TileIsClear(rest, base, chunks, n - 1);
      ClearAt(rest, base + Offset(chunks, n - 1), chunks[n - 1], a);
    }
  }

  lemma SameTile(chunks: seq<nat>, i: nat, j: nat, x: nat)
    requires Positive(chunks) && i < |chunks| && j < |chunks|
    requires Offset(chunks, i) <= x < Offset(chunks, i) + chunks[i] && Offset(chunks, j) <= x < Offset(chunks, j) + chunks[j]
    ensures i == j
  {
    OffsetsOrdered(chunks, i, j);
    OffsetsOrdered(chunks, j, i);
  }

  lemma OffsetsOrdered(chunks: seq<nat>, i: nat, j: nat)
    requires Positive(chunks) && i < |chunks| && j < |chunks|
    ensures i < j ==> Offset(chunks, i) + chunks[i] <= Offset(chunks, j)
  {
    if i < j {
      OffsetsIncrease(chunks, i, j);
    }
  }

  /** Every address of the range lies in exactly one tile. */
  lemma {:induction false} TilesPartition(base: nat, chunks: seq<nat>, n: nat, x: nat)
    requires Positive(chunks) && n <= |chunks| && base <= x < base + Offset(chunks, n)
    ensures exists i | 0 <= i < n :: base + Offset(chunks, i) <= x < base + Offset(chunks, i) + chunks[i]
    ensures forall i, j | 0 <= i < j < n :: Offset(chunks, i) + chunks[i] <= Offset(chunks, j)
  {
    if n > 0 {
      if x < base + Offset(chunks, n - 1) {
        TilesPartition(base, chunks, n - 1, x);
      }
    }
    forall i, j | 0 <= i < j < n ensures Offset(chunks, i) + chunks[i] <= Offset(chunks, j) {
      OffsetsIncrease(chunks, i, j);
    }
  }

  /** The chunk that an address within the allocation belongs to. */
  lemma TileOf(size: nat, chunks: seq<nat>, y: nat) returns (i: nat)
    requires Positive(chunks) && Sum(chunks) == size && y < size
    ensures i < |chunks| && Offset(chunks, i) <= y < Offset(chunks, i) + chunks[i]
  {
    OffsetOfAll(chunks);
    TilesPartition(0, chunks, |chunks|, y);
    i :| 0 <= i < |chunks| && 0 + Offset(chunks, i) <= y < 0 + Offset(chunks, i) + chunks[i];
  }

  /** The chunks of a plan that covers its allocation tile the aligned range exactly. */
  lemma PlanTilesRange(plan: Plan, size: nat, granularity: nat, base: nat, x: nat)
    requires 0 < granularity && plan.Chunks? && Covers(plan, size, granularity)
    requires base <= x < base + plan.alignedSize
    ensures Offset(plan.sizes, |plan.sizes|) == plan.alignedSize
    ensures exists i | 0 <= i < |plan.sizes| ::
              base + Offset(plan.sizes, i) <= x < base + Offset(plan.sizes, i) + plan.sizes[i]
    ensures forall i, j | 0 <= i < j < |plan.sizes| ::
              Offset(plan.sizes, i) + plan.sizes[i] <= Offset(plan.sizes, j)
  {
    OffsetOfAll(plan.sizes);
    TilesPartition(base, plan.sizes, |plan.sizes|, x);
  }

  /** The reserved ranges that hold a range of addresses. */
  function Around(reserved: map<nat, nat>, addr: nat, size: nat): set<nat> {
    set r | r in reserved && r <= addr && addr + size <= r + reserved[r]
  }

  /** A chunk can be mapped into a reserved range where nothing is mapped yet. */
  predicate Placeable(reserved: map<nat, nat>, mappings: map<nat, Mapping>, addr: nat, size: nat) {
    Clear(mappings, addr, size) && Around(reserved, addr, size) != {}
  }

  /** The tiles already there are not in the way of the next one. */
  lemma StillClear(rest: map<nat, Mapping>, base: nat, chunks: seq<nat>, handles: seq<nat>, i: nat)
    requires Positive(chunks) && i < |chunks| == |handles| && TilesAreClear(rest, base, chunks, i)
    ensures Clear(Tiles(rest, base, chunks, handles, i), base + Offset(chunks, i), chunks[i])
            <==> TileIsClear(rest, base, chunks, i)
  {
    var addr, all := base + Offset(chunks, i), Tiles(rest, base, chunks, handles, i);
    forall a | a in all && a !in rest ensures a < addr && a + all[a].size <= addr {
      var j := TileIsOne(rest, base, chunks, handles, i, a);
    }
    forall a | a in rest ensures a in all && all[a] == rest[a] {
      RestStays(rest, base, chunks, handles, i, a);
    }
  }

  /** What is reserved once the calls from `c` on have freed a range and tried to reserve it again. */
  function Cycled(fate: seq<int>, placement: seq<Placement>, c: nat, size: nat, dMem: nat,
                  reserved: map<nat, nat>): map<nat, nat> {
    if Status(fate, c) != 0 || dMem !in reserved || reserved[dMem] != size then reserved
    else
      var rest, addr := reserved - {dMem}, Placed(placement, c + 1, dMem);
      // If the driver moves the range, the new one is freed at once.
      if Status(fate, c + 1) != 0 || addr in rest || (addr != dMem && Status(fate, c + 2) == 0) then rest
      else rest[addr := size]
  }

  /** How many calls that takes: one if the range cannot be freed, and one more if the driver moves it. */
  function CycleCalls(fate: seq<int>, placement: seq<Placement>, c: nat, size: nat, dMem: nat, reserved: map<nat, nat>): nat {
    if Status(fate, c) != 0 || dMem !in reserved || reserved[dMem] != size then 1
    else
      var addr := Placed(placement, c + 1, dMem);
      if Status(fate, c + 1) != 0 || addr in reserved - {dMem} || addr == dMem then 2 else 3
  }

  /** What is reserved once the `c`-th call has tried to free a range. */
  function Freed(fate: seq<int>, c: nat, size: nat, dMem: nat, reserved: map<nat, nat>): map<nat, nat> {
    if Status(fate, c) == 0 && dMem in reserved && reserved[dMem] == size then reserved - {dMem} else reserved
  }

  /** The range is lost exactly if it was freed and did not come back; a new range stays behind only if freeing it failed. */
  lemma RangeLost(fate: seq<int>, placement: seq<Placement>, c: nat, size: nat, dMem: nat, reserved: map<nat, nat>)
    requires dMem in reserved
    ensures var after := Cycled(fate, placement, c, size, dMem, reserved);
            && (dMem in after
                <==> Status(fate, c) != 0 || reserved[dMem] != size
                     || (Status(fate, c + 1) == 0 && Placed(placement, c + 1, dMem) == dMem))
            && (dMem in after ==> after == reserved)
            && (forall a | a in reserved && a != dMem :: a in after && after[a] == reserved[a])
            && (forall a | a in after && a !in reserved :: a == Placed(placement, c + 1, dMem) && Status(fate, c + 2) != 0)
  {
  }

  /** Waking up takes one call per chunk twice and one for the access rights, going to sleep one more for the range. */
  function FirstCall(first: nat, n: nat, k: nat): nat {
    if k == 0 then first
    else FirstCall(first, n, k - 1) + if k % 2 == 1 then 2 * n + 1 else 2 * n + 2
  }

  /** How a call of `CreateAndMap` ended; a failure remembers which driver call failed. */
  datatype Outcome = Mapped | StaleError | CreateFailed(call: nat) | MapFailed(call: nat) | AccessFailed

  class Runtime {
    /** The status the driver gives to each call if its arguments are in order. */
    const fate: seq<int>
    /** Where the driver puts the range if a call reserves one. */
    const placement: seq<Placement>
    /** The handle the driver gives to each call if that creates a chunk. */
    const naming: seq<nat>
    var calls: nat
    var errorCode: int
    var reserved: map<nat, nat>
    var mappings: map<nat, Mapping>
    var live: map<nat, nat>
    /** The addresses that the device may access. */
    var access: set<nat>

    // ----- the driver -----

    /** The driver does not hand out a handle that is in use. */
    method MemCreate(size: nat) returns (status: int, handle: nat)
      modifies this`calls, this`live
      ensures calls == old(calls) + 1 && handle == Given(naming, old(calls))
      ensures status == 0 <==> Status(fate, old(calls)) == 0 && handle !in old(live)
      ensures live == if status == 0 then old(live)[handle := size] else old(live)
    {
      status, handle, calls := Status(fate, calls), Given(naming, calls), calls + 1;
      if status == 0 {
        if handle !in live { live := live[handle := size]; } else { status := 1; }
      }
    }

    method MemRelease(handle: nat) returns (status: int)
      modifies this`calls, this`live
      ensures calls == old(calls) + 1
      ensures status == 0 <==> Status(fate, old(calls)) == 0 && handle in old(live)
      ensures live == if status == 0 then old(live) - {handle} else old(live)
    {
      status, calls := Status(fate, calls), calls + 1;
      if status == 0 {
        if handle in live { live := live - {handle}; } else { status := 1; }
      }
    }

    predicate CanMap(addr: nat, size: nat, handle: nat)
      reads this
    {
      handle in live && live[handle] == size && Placeable(reserved, mappings, addr, size)
    }

    method MemMap(addr: nat, size: nat, handle: nat) returns (status: int)
      modifies this`calls, this`mappings
      ensures calls == old(calls) + 1
      ensures status == 0 <==> Status(fate, old(calls)) == 0 && old(CanMap(addr, size, handle))
      ensures mappings == if status == 0 then old(mappings)[addr := Mapping(size, handle)] else old(mappings)
    {
      status := Status(fate, calls);
      if status == 0 {
        if CanMap(addr, size, handle) { mappings := mappings[addr := Mapping(size, handle)]; } else { status := 1; }
      }
      calls := calls + 1;
    }

    /** Takes the mapping away, and the access to it. */
    method MemUnmap(addr: nat, size: nat) returns (status: int)
      modifies this`calls, this`mappings, this`access
      ensures calls == old(calls) + 1
      ensures status == 0 <==> Status(fate, old(calls)) == 0 && addr in old(mappings) && old(mappings)[addr].size == size
      ensures mappings == if status == 0 then old(mappings) - {addr} else old(mappings)
      ensures access == if status == 0 then old(access) - Span(addr, size) else old(access)
    {
      status, calls := Status(fate, calls), calls + 1;
      if status == 0 {
        if addr in mappings && mappings[addr].size == size {
          mappings, access := mappings - {addr}, access - Span(addr, size);
        } else {
          status := 1;
        }
      }
    }

    method MemSetAccess(addr: nat, size: nat) returns (status: int)
      modifies this`calls, this`access
      ensures calls == old(calls) + 1 && status == Status(fate, old(calls))
      ensures access == if status == 0 then old(access) + Span(addr, size) else old(access)
    {
      status, calls := Status(fate, calls), calls + 1;
      if status == 0 {
        access := access + Span(addr, size);
      }
    }

    method MemAddressFree(addr: nat, size: nat) returns (status: int)
      modifies this`calls, this`reserved
      ensures calls == old(calls) + 1
      ensures status == 0 <==> Status(fate, old(calls)) == 0 && addr in old(reserved) && old(reserved)[addr] == size
      ensures reserved == if status == 0 then old(reserved) - {addr} else old(reserved)
    {
      status, calls := Status(fate, calls), calls + 1;
      if status == 0 {
        if addr in reserved && reserved[addr] == size { reserved := reserved - {addr}; } else { status := 1; }
      }
    }

    /** The requested address is a wish that the driver may ignore. */
    method MemAddressReserve(size: nat, wish: nat) returns (status: int, addr: nat)
      modifies this`calls, this`reserved
      ensures calls == old(calls) + 1 && addr == Placed(placement, old(calls), wish)
      ensures status == 0 <==> Status(fate, old(calls)) == 0 && addr !in old(reserved)
      ensures reserved == if status == 0 then old(reserved)[addr := size] else old(reserved)
    {
      status, addr, calls := Status(fate, calls), Placed(placement, calls, wish), calls + 1;
      if status == 0 {
        if addr !in reserved { reserved := reserved[addr := size]; } else { status := 1; }
      }
    }

    method CudaCheck(status: int)
      modifies this`errorCode
      ensures errorCode == if status != 0 then status else old(errorCode)
    {
      if status != 0 {
        errorCode := status;
      }
    }

    // ----- what the driver refuses -----

    /** One of the calls from `first` up to `last` gives the name `h`. */
    ghost predicate Gives(first: nat, last: nat, h: nat) {
      first < last && (Given(naming, last - 1) == h || Gives(first, last - 1, h))
    }

    /** The driver refuses to create a chunk: it fails, or the name it would give is in use. */
    ghost predicate CreateRefused(first: nat, call: nat, rest: map<nat, nat>) {
      Status(fate, call) != 0 || Given(naming, call) in rest || Gives(first, call, Given(naming, call))
    }

    /** None of the calls from `first` up to `last`, each creating a chunk, is refused. */
    ghost predicate CreatesFine(first: nat, last: nat, rest: map<nat, nat>) {
      first < last ==> CreatesFine(first, last - 1, rest) && !CreateRefused(first, last - 1, rest)
    }

    /** The driver refuses to map chunk `i`: it fails, or the place is not free or not reserved. */
    ghost predicate MapRefused(first: nat, i: nat, dMem: nat, chunks: seq<nat>, rest: map<nat, Mapping>)
      requires i < |chunks|
      reads this`reserved
    {
      Status(fate, first + i) != 0 || !Placeable(reserved, rest, dMem + Offset(chunks, i), chunks[i])
    }

    /** The first `n` chunks can be mapped by the calls from `first` on. */
    ghost predicate MapsFine(first: nat, n: nat, dMem: nat, chunks: seq<nat>, rest: map<nat, Mapping>)
      requires n <= |chunks|
      reads this`reserved
    {
      n > 0 ==> MapsFine(first, n - 1, dMem, chunks, rest) && !MapRefused(first, n - 1, dMem, chunks, rest)
    }

    lemma {:induction false} CreatesNotFine(first: nat, call: nat, last: nat, rest: map<nat, nat>)
      requires first <= call < last && CreateRefused(first, call, rest)
      ensures !CreatesFine(first, last, rest)
    {
      if call < last - 1 {
        CreatesNotFine(first, call, last - 1, rest);
      }
    }

    lemma {:induction false} MapsNotFine(first: nat, i: nat, n: nat, dMem: nat, chunks: seq<nat>, rest: map<nat, Mapping>)
      requires i < n <= |chunks| && MapRefused(first, i, dMem, chunks, rest)
      ensures !MapsFine(first, n, dMem, chunks, rest)
    {
      if i < n - 1 {
        MapsNotFine(first, i, n - 1, dMem, chunks, rest);
      }
    }

    ghost predicate IsNamed(handles: seq<nat>, first: nat, j: nat) {
      j < |handles| && handles[j] == Given(naming, first + j)
    }

    /** The first `n` handles are those that the calls from `first` on have given. */
    ghost predicate Named(handles: seq<nat>, first: nat, n: nat) {
      forall j {:trigger IsNamed(handles, first, j)} | 0 <= j < n :: IsNamed(handles, first, j)
    }

    lemma {:induction false} NamesGiven(first: nat, i: nat, rest: map<nat, nat>, chunks: seq<nat>, handles: seq<nat>, h: nat)
      requires i <= |chunks| == |handles| && Named(handles, first, i)
      ensures h in Backing(rest, chunks, handles, i) <==> h in rest || Gives(first, first + i, h)
    {
      if i > 0 {
        NamesGiven(first, i - 1, rest, chunks, handles, h);
        assert IsNamed(handles, first, i - 1);
      }
    }

    /** The name of the next chunk is in use exactly if the driver refuses to create it for that reason. */
    lemma NameInUse(first: nat, i: nat, chunks: seq<nat>, handles: seq<nat>, rest: map<nat, nat>)
      requires i <= |chunks| == |handles| && Named(handles, first, i)
      ensures CreateRefused(first, first + i, rest)
              <==> Status(fate, first + i) != 0 || Given(naming, first + i) in Backing(rest, chunks, handles, i)
    {
      NamesGiven(first, i, rest, chunks, handles, Given(naming, first + i));
    }

    lemma KeepNames(before: seq<nat>, handles: seq<nat>, first: nat, i: nat)
      requires i < |before| == |handles| && Named(before, first, i) && forall j | 0 <= j < i :: handles[j] == before[j]
      ensures Named(handles, first, i) && (handles[i] == Given(naming, first + i) ==> Named(handles, first, i + 1))
    {
      forall j | 0 <= j < i ensures IsNamed(handles, first, j) {
        assert IsNamed(before, first, j);
      }
    }

    // ----- releasing and unmapping -----

    /** Handles 0 up to `n` are released; those whose release failed are left beside the `rest`. */
    method ReleaseHandles(handles: seq<nat>, n: nat, ghost chunks: seq<nat>, ghost rest: map<nat, nat>)
      returns (firstError: int)
      requires n <= |handles| == |chunks| && DistinctHandles(handles, n)
      requires HandlesAreNew(rest, handles, n)
      requires live == Backing(rest, chunks, handles, n)
      modifies this`calls, this`live
      ensures calls == old(calls) + n
      ensures firstError == 0 <==> Fine(fate, old(calls), calls)
      ensures live == BackingLeft(rest, fate, old(calls), n, chunks, handles, n)
      ensures firstError == 0 ==> live == rest
    {
      firstError := 0;
      NothingGone(map[], rest, fate, calls, 0, chunks, handles, n);
      for j := 0 to n
        invariant calls == old(calls) + j
        invariant firstError == 0 <==> Fine(fate, old(calls), calls)
        invariant live == BackingLeft(rest, fate, old(calls), j, chunks, handles, n)
      {
        NextHandle(rest, fate, old(calls), j, chunks, handles, n);
        var status := MemRelease(handles[j]);
        if status != 0 && firstError == 0 {
          firstError := status;
        }
      }
      if firstError == 0 { AllGone(map[], rest, fate, old(calls), n, 0, chunks, handles, n); }
    }

    /** Unmaps chunk `j`; it fails exactly if the driver's call does. */
    method UnmapOne(addr: nat, chunks: seq<nat>, j: nat, ghost first: nat, ghost dMem: nat, ghost n: nat,
                    ghost handles: seq<nat>, ghost rest: map<nat, Mapping>, ghost rights: set<nat>)
      returns (status: int)
      requires Positive(chunks) && j < n <= |chunks| == |handles| && TilesAreClear(rest, dMem, chunks, n)
      requires calls == first + j && addr == dMem + Offset(chunks, j)
      requires mappings == TilesLeft(rest, fate, first, j, dMem, chunks, handles, n)
      requires access == AccessLeft(rights, fate, first, j, dMem, chunks, n)
      modifies this`calls, this`mappings, this`access
      ensures calls == old(calls) + 1 && (status == 0 <==> Status(fate, first + j) == 0)
      ensures mappings == TilesLeft(rest, fate, first, j + 1, dMem, chunks, handles, n)
      ensures access == AccessLeft(rights, fate, first, j + 1, dMem, chunks, n)
    {
      NextTile(rest, fate, first, j, dMem, chunks, handles, n);
      NextAccess(rights, fate, first, j, dMem, chunks, n);
      status := MemUnmap(addr, chunks[j]);
    }

    /** Tiles 0 up to `n` are unmapped; those whose unmapping failed are left beside the `rest`. */
    method UnmapTiles(dMem: nat, chunks: seq<nat>, n: nat, ghost handles: seq<nat>, ghost rest: map<nat, Mapping>)
      returns (firstError: int)
      requires Positive(chunks) && n <= |chunks| == |handles|
      requires TilesAreClear(rest, dMem, chunks, n)
      requires mappings == Tiles(rest, dMem, chunks, handles, n)
      modifies this`calls, this`mappings, this`access
      ensures calls == old(calls) + n
      ensures firstError == 0 <==> Fine(fate, old(calls), calls)
      ensures mappings == TilesLeft(rest, fate, old(calls), n, dMem, chunks, handles, n)
      ensures firstError == 0 ==> mappings == rest
      ensures access == AccessLeft(old(access), fate, old(calls), n, dMem, chunks, n)
    {
      firstError := 0;
      var unmappedSize := 0;
      NothingGone(rest, map[], fate, calls, dMem, chunks, handles, n);
      NoAccessGone(access, fate, calls, dMem, chunks, n);
      for j := 0 to n
        invariant calls == old(calls) + j && unmappedSize == Offset(chunks, j)
        invariant firstError == 0 <==> Fine(fate, old(calls), calls)
        invariant mappings == TilesLeft(rest, fate, old(calls), j, dMem, chunks, handles, n)
        invariant access == AccessLeft(old(access), fate, old(calls), j, dMem, chunks, n)
      {
        var status := UnmapOne(dMem + unmappedSize, chunks, j, old(calls), dMem, n, handles, rest, old(access));
        if status != 0 && firstError == 0 {
          firstError := status;
        }
        unmappedSize := unmappedSize + chunks[j];
      }
      if firstError == 0 { AllGone(rest, map[], fate, old(calls), n, dMem, chunks, handles, n); }
    }

    // ----- waking up -----

    /** Everything but the first `n` chunks is as given, and these have been created by the calls from `first` on. */
    ghost predicate Created(chunks: seq<nat>, handles: seq<nat>, n: nat, first: nat, rest: map<nat, nat>)
      requires n <= |chunks| == |handles|
      reads this`live
    {
      && Named(handles, first, n) && DistinctHandles(handles, n) && HandlesAreNew(rest, handles, n)
      && live == Backing(rest, chunks, handles, n)
    }

    /** What a creation leaves under a stale error: the chunk that the driver may have created is not known to anyone. */
    ghost function Leaked(call: nat, size: nat, rest: map<nat, nat>): map<nat, nat> {
      if Status(fate, call) == 0 && Given(naming, call) !in rest then rest[Given(naming, call) := size] else rest
    }

    /** Creates chunk `i`; a stale error is taken for a failure. */
    method CreateOne(handles: array<nat>, chunks: seq<nat>, i: nat, ghost first: nat, ghost rest: map<nat, nat>)
      requires i < |chunks| == handles.Length && calls == first + i && Created(chunks, handles[..], i, first, rest)
      modifies this`calls, this`errorCode, this`live, handles
      ensures calls == old(calls) + 1
      ensures errorCode == 0 <==> old(errorCode) == 0 && !CreateRefused(first, first + i, rest)
      ensures errorCode == 0 ==> Created(chunks, handles[..], i + 1, first, rest)
      ensures errorCode != 0 && old(errorCode) == 0 ==> Created(chunks, handles[..], i, first, rest)
      ensures old(errorCode) != 0 ==> live == Leaked(old(calls), chunks[i], old(live))
    {
      ghost var before := handles[..];
      NameInUse(first, i, chunks, before, rest);
      var status, handle := MemCreate(chunks[i]);
      CudaCheck(status);
      if status == 0 {
        handles[i] := handle;
      }
      AddHandle(rest, chunks, before, handles[..], i, handle);
      KeepNames(before, handles[..], first, i);
    }

    /** The creation at `call` was the first one refused, and what is left are the chunks that could not be released. */
    ghost predicate CreateRolledBack(first: nat, call: nat, chunks: seq<nat>, handles: seq<nat>, rest: map<nat, nat>)
      requires |handles| == |chunks|
      reads this`live
    {
      && first <= call < first + |chunks|
      && CreateRefused(first, call, rest) && CreatesFine(first, call, rest)
      && live == BackingLeft(rest, fate, call + 1, call - first, chunks, handles, call - first)
    }

    /** Releases the chunks created before the refused one. */
    method UndoCreation(handles: seq<nat>, chunks: seq<nat>, i: nat, ghost first: nat, ghost rest: map<nat, nat>)
      requires i < |chunks| == |handles| && calls == first + i + 1 && Created(chunks, handles, i, first, rest)
      requires CreateRefused(first, first + i, rest) && CreatesFine(first, first + i, rest)
      modifies this`calls, this`live
      ensures CreateRolledBack(first, first + i, chunks, handles, rest) && first + i < calls
      ensures Fine(fate, first + i + 1, calls) ==> live == rest
    {
      var _ := ReleaseHandles(handles, i, chunks, rest);
    }

    /**
    The creation loop with its clean-up. It fails at the first refused call, and what it leaves then are the chunks
    that could not be released.
    */
    method CreateAll(handles: array<nat>, chunks: seq<nat>) returns (ok: bool, ghost failed: nat)
      requires handles.Length == |chunks|
      modifies this`calls, this`errorCode, this`live, handles
      ensures ok ==> Created(chunks, handles[..], |chunks|, old(calls), old(live))
      ensures ok ==> errorCode == old(errorCode) && calls == old(calls) + |chunks|
      ensures ok ==> (errorCode == 0 || |chunks| == 0) && CreatesFine(old(calls), calls, old(live))
      ensures !ok ==> errorCode != 0 && chunks != []
      ensures !ok && old(errorCode) == 0 ==>
                && failed < calls && CreateRolledBack(old(calls), failed, chunks, handles[..], old(live))
                && (Fine(fate, failed + 1, calls) ==> live == old(live))
      // With a stale error the first creation is taken for a failure, and what it created is never released.
      ensures !ok && old(errorCode) != 0 ==> live == Leaked(old(calls), chunks[0], old(live))
    {
      failed := 0;
      for i := 0 to |chunks|
        invariant calls == old(calls) + i && errorCode == old(errorCode) && (errorCode == 0 || i == 0)
        invariant Created(chunks, handles[..], i, old(calls), old(live))
        invariant CreatesFine(old(calls), old(calls) + i, old(live))
      {
        CreateOne(handles, chunks, i, old(calls), old(live));
        if errorCode != 0 {
          failed := old(calls) + i;
          if i > 0 {
            UndoCreation(handles[..], chunks, i, old(calls), old(live));
          }
          return false, failed;
        }
      }
      ok := true;
    }

    /** Everything but this allocation is as given; all its chunks are live, and the first `n` are mapped back to back. */
    ghost predicate Backed(dMem: nat, chunks: seq<nat>, handles: seq<nat>, n: nat,
                           otherMappings: map<nat, Mapping>, otherLive: map<nat, nat>)
      requires n <= |handles| == |chunks|
      reads this`mappings, this`live
    {
      && DistinctHandles(handles, |chunks|) && HandlesAreNew(otherLive, handles, |chunks|)
      && TilesAreClear(otherMappings, dMem, chunks, n)
      && mappings == Tiles(otherMappings, dMem, chunks, handles, n)
      && live == Backing(otherLive, chunks, handles, |chunks|)
    }

    /** What the calls from `first` on have left after trying to unmap the first `n` chunks and to release all. */
    ghost predicate GivenBack(first: nat, dMem: nat, chunks: seq<nat>, handles: seq<nat>, n: nat,
                              otherMappings: map<nat, Mapping>, otherLive: map<nat, nat>)
      requires n <= |handles| == |chunks|
      reads this`mappings, this`live
    {
      && mappings == TilesLeft(otherMappings, fate, first, n, dMem, chunks, handles, n)
      && live == BackingLeft(otherLive, fate, first + n, |chunks|, chunks, handles, |chunks|)
    }

    /** Unmaps the first `n` chunks and releases all handles, whatever the driver says to it, and reports the first error. */
    method GiveBack(dMem: nat, chunks: seq<nat>, handles: seq<nat>, n: nat,
                    ghost otherMappings: map<nat, Mapping>, ghost otherLive: map<nat, nat>)
      returns (firstError: int)
      requires n <= |handles| == |chunks| && Positive(chunks) && Backed(dMem, chunks, handles, n, otherMappings, otherLive)
      modifies this`calls, this`live, this`mappings, this`access
      ensures calls == old(calls) + n + |chunks|
      ensures GivenBack(old(calls), dMem, chunks, handles, n, otherMappings, otherLive)
      ensures firstError == 0 <==> Fine(fate, old(calls), calls)
      ensures firstError == 0 ==> Asleep(otherMappings, otherLive)
      ensures access == AccessLeft(old(access), fate, old(calls), n, dMem, chunks, n)
    {
      firstError := UnmapTiles(dMem, chunks, n, handles, otherMappings);
      var releaseError := ReleaseHandles(handles, |chunks|, chunks, otherLive);
      if releaseError != 0 && firstError == 0 {
        firstError := releaseError;
      }
      FineSplit(fate, old(calls), old(calls) + n, calls);
    }

    /** Maps chunk `i` behind those before it. */
    method MapOne(mapAddr: nat, chunks: seq<nat>, handles: seq<nat>, i: nat, ghost first: nat, ghost dMem: nat,
                  ghost others: map<nat, Mapping>, ghost rest: map<nat, nat>)
      requires Positive(chunks) && i < |chunks| == |handles| && errorCode == 0
      requires mapAddr == dMem + Offset(chunks, i) && calls == first + i
      requires Backed(dMem, chunks, handles, i, others, rest)
      modifies this`calls, this`errorCode, this`mappings
      ensures calls == old(calls) + 1
      ensures errorCode == 0 <==> !MapRefused(first, i, dMem, chunks, others)
      ensures Backed(dMem, chunks, handles, if errorCode == 0 then i + 1 else i, others, rest)
    {
      BackingSize(rest, chunks, handles, |chunks|, i);
      StillClear(others, dMem, chunks, handles, i);
      var status := MemMap(mapAddr, chunks[i], handles[i]);
      CudaCheck(status);
    }

    /** The mapping at `call` was the first one refused, and what is left are the chunks that could not be given back. */
    ghost predicate MapRolledBack(first: nat, call: nat, dMem: nat, chunks: seq<nat>, handles: seq<nat>,
                                  others: map<nat, Mapping>, rest: map<nat, nat>)
      requires |handles| == |chunks|
      reads this
    {
      && first <= call < first + |chunks|
      && var i := call - first;
         && MapRefused(first, i, dMem, chunks, others) && MapsFine(first, i, dMem, chunks, others)
         && GivenBack(call + 1, dMem, chunks, handles, i, others, rest)
    }

    /** What is accessible after a failure: what was, but for the tiles that have been unmapped again. */
    ghost predicate RightsLeft(outcome: Outcome, first: nat, dMem: nat, chunks: seq<nat>, before: set<nat>)
      reads this`access
    {
      if outcome.MapFailed?
      then
        && first <= outcome.call < first + |chunks|
        && var i := outcome.call - first;
           access == AccessLeft(before, fate, outcome.call + 1, i, dMem, chunks, i)
      else access == before
    }

    /** Gives back all chunks once the mapping of chunk `i` was refused. */
    method UndoMapping(dMem: nat, chunks: seq<nat>, handles: seq<nat>, i: nat, ghost first: nat,
                       ghost others: map<nat, Mapping>, ghost rest: map<nat, nat>)
      requires Positive(chunks) && i < |chunks| == |handles| && calls == first + i + 1
      requires Backed(dMem, chunks, handles, i, others, rest)
      requires MapRefused(first, i, dMem, chunks, others) && MapsFine(first, i, dMem, chunks, others)
      modifies this`calls, this`live, this`mappings, this`access
      ensures MapRolledBack(first, first + i, dMem, chunks, handles, others, rest) && first + i < calls
      ensures Fine(fate, first + i + 1, calls) ==> Asleep(others, rest)
      ensures access == AccessLeft(old(access), fate, first + i + 1, i, dMem, chunks, i)
    {
      var _ := GiveBack(dMem, chunks, handles, i, others, rest);
    }

    /**
    The mapping loop with its clean-up. It fails at the first refused call, and what it leaves then are the chunks
    that could not be unmapped or released.
    */
    method MapAll(dMem: nat, chunks: seq<nat>, handles: seq<nat>, ghost rest: map<nat, nat>)
      returns (ok: bool, ghost failed: nat)
      requires Positive(chunks) && |handles| == |chunks| && errorCode == 0
      requires Backed(dMem, chunks, handles, 0, mappings, rest)
      modifies this`calls, this`errorCode, this`live, this`mappings, this`access
      ensures ok <==> errorCode == 0
      ensures ok ==> MapsFine(old(calls), |chunks|, dMem, chunks, old(mappings)) && calls == old(calls) + |chunks|
      ensures ok ==> Backed(dMem, chunks, handles, |chunks|, old(mappings), rest)
      ensures !ok ==> failed < calls && MapRolledBack(old(calls), failed, dMem, chunks, handles, old(mappings), rest)
      ensures !ok && Fine(fate, failed + 1, calls) ==> Asleep(old(mappings), rest)
      ensures ok ==> access == old(access)
      ensures !ok ==> RightsLeft(MapFailed(failed), old(calls), dMem, chunks, old(access))
    {
      failed := 0;
      var allocatedSize := 0;
      for i := 0 to |chunks|
        invariant calls == old(calls) + i && errorCode == 0 && allocatedSize == Offset(chunks, i)
        invariant MapsFine(old(calls), i, dMem, chunks, old(mappings)) && access == old(access)
        invariant Backed(dMem, chunks, handles, i, old(mappings), rest)
      {
        MapOne(dMem + allocatedSize, chunks, handles, i, old(calls), dMem, old(mappings), rest);
        if errorCode != 0 {
          failed := old(calls) + i;
          UndoMapping(dMem, chunks, handles, i, old(calls), old(mappings), rest);
          return false, failed;
        }
        allocatedSize := allocatedSize + chunks[i];
      }
      ok := true;
    }

    /** Everything but this allocation is as given, and this allocation is backed chunk by chunk. */
    ghost predicate Awake(dMem: nat, chunks: seq<nat>, handles: seq<nat>,
                          otherMappings: map<nat, Mapping>, otherLive: map<nat, nat>)
      requires |handles| == |chunks|
      reads this`mappings, this`live
    {
      Backed(dMem, chunks, handles, |chunks|, otherMappings, otherLive)
    }

    /** Everything but this allocation is as given, and this allocation has no mapping and no handle. */
    ghost predicate Asleep(otherMappings: map<nat, Mapping>, otherLive: map<nat, nat>)
      reads this`mappings, this`live
    {
      mappings == otherMappings && live == otherLive
    }

    /** The calls from `first` on create and map all chunks; only the access rights are still to be set. */
    ghost predicate Backs(first: nat, dMem: nat, chunks: seq<nat>, otherMappings: map<nat, Mapping>, otherLive: map<nat, nat>)
      reads this`reserved
    {
      && CreatesFine(first, first + |chunks|, otherLive)
      && MapsFine(first + |chunks|, |chunks|, dMem, chunks, otherMappings)
    }

    /** The two loops: all chunks are created and mapped, or the first refused call is rolled back. */
    method BackAll(dMem: nat, handles: array<nat>, chunks: seq<nat>) returns (ok: bool, ghost outcome: Outcome)
      requires handles.Length == |chunks| && Positive(chunks)
      modifies this`calls, this`errorCode, this`live, this`mappings, this`access, handles
      ensures old(errorCode) == 0 ==> (ok <==> Backs(old(calls), dMem, chunks, old(mappings), old(live)))
      ensures old(errorCode) == 0 ==> (ok <==> errorCode == 0)
      ensures old(errorCode) == 0 && ok ==>
                Awake(dMem, chunks, handles[..], old(mappings), old(live)) && calls == old(calls) + 2 * |chunks|
      ensures old(errorCode) == 0 && !ok ==>
                RolledBack(outcome, old(calls), dMem, chunks, handles[..], old(mappings), old(live))
      ensures outcome.StaleError? <==> old(errorCode) != 0
      ensures ok || old(errorCode) != 0 ==> access == old(access)
      ensures old(errorCode) != 0 ==> (ok <==> chunks == []) && (ok ==> calls == old(calls))
      ensures old(errorCode) == 0 && !ok ==> RightsLeft(outcome, old(calls) + |chunks|, dMem, chunks, old(access))
      ensures old(errorCode) != 0 ==> errorCode != 0 && Stale(old(calls), chunks, old(mappings), old(live))
    {
      ghost var stale := errorCode != 0;
      ghost var failed;
      ok, failed := CreateAll(handles, chunks);
      outcome := if stale then StaleError else CreateFailed(failed);
      if !ok && !stale { CreatesNotFine(old(calls), failed, old(calls) + |chunks|, old(live)); }
      // A stale error gets past the first loop only if there are no chunks to map either.
      if ok && errorCode == 0 {
        ok, failed := MapAll(dMem, chunks, handles[..], old(live));
        outcome := MapFailed(failed);
        if !ok {
          ghost var first := old(calls) + |chunks|;
          MapsNotFine(first, failed - first, |chunks|, dMem, chunks, old(mappings));
        }
      }
    }

    /** Under a stale error nothing is mapped, and a chunk that the driver did create is leaked. */
    ghost predicate Stale(first: nat, chunks: seq<nat>, others: map<nat, Mapping>, rest: map<nat, nat>)
      reads this`mappings, this`live
    {
      mappings == others && live == if chunks == [] then rest else Leaked(first, chunks[0], rest)
    }

    /** A refused creation or mapping was rolled back; completely, if the clean-up calls succeeded. */
    ghost predicate RolledBack(outcome: Outcome, first: nat, dMem: nat, chunks: seq<nat>, handles: seq<nat>,
                               others: map<nat, Mapping>, rest: map<nat, nat>)
      requires |handles| == |chunks|
      reads this
    {
      match outcome
      case CreateFailed(call) =>
        && mappings == others && CreateRolledBack(first, call, chunks, handles, rest)
        && call < calls && (Fine(fate, call + 1, calls) ==> Asleep(others, rest))
      case MapFailed(call) =>
        && CreatesFine(first, first + |chunks|, rest)
        && MapRolledBack(first + |chunks|, call, dMem, chunks, handles, others, rest)
        && call < calls && (Fine(fate, call + 1, calls) ==> Asleep(others, rest))
      case _ => false
    }

    /**
    Backs a reserved range. The outcome is determined by what the driver refuses. A refused creation or mapping is
    rolled back, up to what the clean-up calls fail to give back; a failure to set the access rights is not
    rolled back at all.
    */
    method CreateAndMap(size: nat, dMem: nat, handles: array<nat>, chunks: seq<nat>) returns (ghost outcome: Outcome)
      requires handles.Length == |chunks| && Positive(chunks)
      modifies this`calls, this`errorCode, this`live, this`mappings, this`access, handles
      ensures errorCode == 0 <==> outcome.Mapped?
      ensures outcome.StaleError? <==> old(errorCode) != 0
      ensures outcome.Mapped? <==>
                && old(errorCode) == 0 && Backs(old(calls), dMem, chunks, old(mappings), old(live))
                && Status(fate, old(calls) + 2 * |chunks|) == 0
      ensures outcome.AccessFailed? <==>
                && old(errorCode) == 0 && Backs(old(calls), dMem, chunks, old(mappings), old(live))
                && Status(fate, old(calls) + 2 * |chunks|) != 0
      ensures outcome.Mapped? || outcome.AccessFailed? ==>
                && Awake(dMem, chunks, handles[..], old(mappings), old(live))
                && calls == old(calls) + 2 * |chunks| + 1
      ensures outcome.CreateFailed? || outcome.MapFailed? ==>
                RolledBack(outcome, old(calls), dMem, chunks, handles[..], old(mappings), old(live))
      ensures outcome.StaleError? ==> Stale(old(calls), chunks, old(mappings), old(live))
      ensures outcome.Mapped? ==> access == old(access) + Span(dMem, size)
      ensures !outcome.Mapped? && !outcome.StaleError? ==>
                RightsLeft(outcome, old(calls) + |chunks|, dMem, chunks, old(access))
      // Without chunks a stale error does not keep the code from setting the access rights.
      ensures outcome.StaleError? ==>
                access == if chunks == [] && Status(fate, old(calls)) == 0 then old(access) + Span(dMem, size) else old(access)
    {
      var ok;
      ok, outcome := BackAll(dMem, handles, chunks);
      if ok {
        var status := MemSetAccess(dMem, size);
        CudaCheck(status);
        outcome := if outcome.StaleError? then StaleError else if errorCode == 0 then Mapped else AccessFailed;
      }
    }

    // ----- going to sleep -----

    /** The calls from `c` on free the range and get it back at the same address. */
    ghost predicate CycleFine(c: nat, size: nat, dMem: nat)
      reads this`reserved
    {
      && Status(fate, c) == 0 && Status(fate, c + 1) == 0
      && dMem in reserved && reserved[dMem] == size && Placed(placement, c + 1, dMem) == dMem
    }

    /** The calls from `first` on take the backing away, free the range and get it back at the same address. */
    ghost predicate Sleeps(first: nat, size: nat, dMem: nat, n: nat)
      reads this`reserved
    {
      Fine(fate, first, first + 2 * n) && CycleFine(first + 2 * n, size, dMem)
    }

    /** What is reserved after the calls from `first` on have taken the backing of `n` chunks away. */
    ghost function SleepRange(first: nat, size: nat, dMem: nat, n: nat, ranges: map<nat, nat>): map<nat, nat> {
      if Fine(fate, first, first + 2 * n) then Cycled(fate, placement, first + 2 * n, size, dMem, ranges) else ranges
    }

    /** How many calls that takes. */
    ghost function SleepCalls(first: nat, size: nat, dMem: nat, n: nat, ranges: map<nat, nat>): nat {
      2 * n + if Fine(fate, first, first + 2 * n) then CycleCalls(fate, placement, first + 2 * n, size, dMem, ranges) else 0
    }

    /**
    Takes the backing away and frees and reserves the range again, at the same address. It succeeds exactly when
    all driver calls do and the driver gives the old address back; any other end sets the error code. In any case
    what is left of the backing is what the driver failed to give back, and the range is only touched if that is nothing.
    */
    method UnmapAndRelease(size: nat, dMem: nat, handles: seq<nat>, chunks: seq<nat>,
                           ghost otherMappings: map<nat, Mapping>, ghost otherLive: map<nat, nat>)
      returns (ghost success: bool)
      requires |handles| == |chunks| && Positive(chunks)
      requires Awake(dMem, chunks, handles, otherMappings, otherLive)
      modifies this`calls, this`errorCode, this`live, this`mappings, this`access, this`reserved
      ensures success <==> old(Sleeps(calls, size, dMem, |chunks|))
      ensures success ==> Asleep(otherMappings, otherLive) && reserved == old(reserved) && errorCode == old(errorCode)
      ensures success ==> calls == old(calls) + 2 * |chunks| + 2
      ensures success ==> access == old(access) - Span(dMem, Offset(chunks, |chunks|))
      ensures calls == old(calls) + SleepCalls(old(calls), size, dMem, |chunks|, old(reserved))
      ensures !success ==> errorCode != 0
      ensures GivenBack(old(calls), dMem, chunks, handles, |chunks|, otherMappings, otherLive)
      ensures access == AccessLeft(old(access), fate, old(calls), |chunks|, dMem, chunks, |chunks|)
      ensures reserved == SleepRange(old(calls), size, dMem, |chunks|, old(reserved))
    {
      var firstError := GiveBack(dMem, chunks, handles, |chunks|, otherMappings, otherLive);
      if firstError == 0 {
        FineSplit(fate, old(calls), old(calls) + |chunks|, calls);
        AllAccessGone(old(access), fate, old(calls), |chunks|, dMem, chunks, |chunks|);
      }
      success := false;
      if firstError == 0 {
        var moved;
        firstError, moved := CycleRange(size, dMem);
        if moved {
          errorCode := 1;
          return;
        }
        success := firstError == 0;
      }
      if firstError != 0 {
        CudaCheck(firstError);
      }
    }

    /** Frees the range and reserves it again; `moved` if the driver put it somewhere else. */
    method CycleRange(size: nat, dMem: nat) returns (firstError: int, moved: bool)
      modifies this`calls, this`reserved
      ensures firstError == 0 && !moved <==> old(CycleFine(calls, size, dMem))
      ensures calls == old(calls) + CycleCalls(fate, placement, old(calls), size, dMem, old(reserved))
      ensures reserved == Cycled(fate, placement, old(calls), size, dMem, old(reserved))
    {
      moved := false;
      firstError := MemAddressFree(dMem, size);
      if firstError == 0 {
        var dMemNew;
        firstError, dMemNew := MemAddressReserve(size, dMem);
        if firstError == 0 && dMemNew != dMem {
          var _ := MemAddressFree(dMemNew, size);
          moved := true;
        }
      }
    }

    /**
    The part of `my_free` that gives an allocation back. It hands on the size its caller asked for, not the aligned
    size of the reservation: if the two differ, the range is never freed.
    */
    method Free(size: nat, dMem: nat, handles: seq<nat>, chunks: seq<nat>,
                ghost otherMappings: map<nat, Mapping>, ghost otherLive: map<nat, nat>)
      requires |handles| == |chunks| && Positive(chunks)
      requires Awake(dMem, chunks, handles, otherMappings, otherLive)
      modifies this`calls, this`errorCode, this`live, this`mappings, this`access, this`reserved
      ensures errorCode == 0 <==>
                old(errorCode) == 0 && old(Sleeps(calls, size, dMem, |chunks|)) && Status(fate, old(calls) + 2 * |chunks| + 2) == 0
      ensures errorCode == 0 ==> Asleep(otherMappings, otherLive) && reserved == old(reserved) - {dMem}
      ensures GivenBack(old(calls), dMem, chunks, handles, |chunks|, otherMappings, otherLive)
      ensures access == AccessLeft(old(access), fate, old(calls), |chunks|, dMem, chunks, |chunks|)
      ensures var after := SleepRange(old(calls), size, dMem, |chunks|, old(reserved));
              var last := old(calls) + SleepCalls(old(calls), size, dMem, |chunks|, old(reserved));
              reserved == Freed(fate, last, size, dMem, after) && calls == last + 1
      ensures dMem in old(reserved) && old(reserved)[dMem] != size ==> errorCode != 0 && reserved == old(reserved)
    {
      ghost var success := UnmapAndRelease(size, dMem, handles, chunks, otherMappings, otherLive);
      var status := MemAddressFree(dMem, size);
      CudaCheck(status);
    }

    // ----- sleeping and waking any number of times -----

    /** Step `k` of a run that began with driver call `first` goes well: waking up and going to sleep take turns. */
    ghost predicate StepFine(first: nat, k: nat, size: nat, dMem: nat, chunks: seq<nat>,
                             otherMappings: map<nat, Mapping>, otherLive: map<nat, nat>)
      reads this`reserved
    {
      var call := FirstCall(first, |chunks|, k);
      if k % 2 == 0
      then Backs(call, dMem, chunks, otherMappings, otherLive) && Status(fate, call + 2 * |chunks|) == 0
      else Sleeps(call, size, dMem, |chunks|)
    }

    /** Before step `k` the allocation is asleep or awake, in turn. */
    ghost predicate Phase(k: nat, dMem: nat, chunks: seq<nat>, handles: seq<nat>,
                          otherMappings: map<nat, Mapping>, otherLive: map<nat, nat>)
      requires |handles| == |chunks|
      reads this`mappings, this`live
    {
      if k % 2 == 0 then Asleep(otherMappings, otherLive) else Awake(dMem, chunks, handles, otherMappings, otherLive)
    }

    method TakeStep(size: nat, dMem: nat, handles: array<nat>, chunks: seq<nat>, k: nat, ghost first: nat,
                    ghost otherMappings: map<nat, Mapping>, ghost otherLive: map<nat, nat>, ghost rights: set<nat>)
      requires handles.Length == |chunks| && Positive(chunks) && Sum(chunks) == size && calls == FirstCall(first, |chunks|, k)
      requires Phase(k, dMem, chunks, handles[..], otherMappings, otherLive)
      requires access == AccessAfter(k, rights, Span(dMem, size))
      modifies this`calls, this`errorCode, this`live, this`mappings, this`access, this`reserved, handles
      ensures errorCode == 0 <==>
                old(errorCode) == 0 && old(StepFine(first, k, size, dMem, chunks, otherMappings, otherLive))
      ensures errorCode == 0 ==>
                && Phase(k + 1, dMem, chunks, handles[..], otherMappings, otherLive)
                && reserved == old(reserved) && calls == FirstCall(first, |chunks|, k + 1)
                && access == AccessAfter(k + 1, rights, Span(dMem, size))
    {
      OffsetOfAll(chunks);
      AccessStep(k, rights, Span(dMem, size));
      if k % 2 == 0 {
        ghost var outcome := CreateAndMap(size, dMem, handles, chunks);
      } else {
        ghost var success := UnmapAndRelease(size, dMem, handles[..], chunks, otherMappings, otherLive);
      }
    }

    /**
    Any alternating run of waking up and going to sleep, stopped at the first error. It goes through exactly if there is
    no stale error, no step is refused anything by the driver, and no range is moved. Then the range has stayed
    reserved, and the allocation is fully backed or not backed at all.
    */
    method Alternate(size: nat, dMem: nat, handles: array<nat>, chunks: seq<nat>, steps: nat)
      requires handles.Length == |chunks| && Positive(chunks) && Sum(chunks) == size
      modifies this`calls, this`errorCode, this`live, this`mappings, this`access, this`reserved, handles
      ensures errorCode == 0 <==>
                && old(errorCode) == 0
                && forall k | 0 <= k < steps :: old(StepFine(calls, k, size, dMem, chunks, mappings, live))
      ensures errorCode == 0 ==> reserved == old(reserved)
      ensures errorCode == 0 ==> Phase(steps, dMem, chunks, handles[..], old(mappings), old(live))
      ensures errorCode == 0 && steps % 2 == 1 ==>
                forall x | dMem <= x < dMem + size :: CoveredOnce(x, dMem, chunks, handles[..]) && x in access
      ensures errorCode == 0 ==> access == AccessAfter(steps, old(access), Span(dMem, size))
    {
      for k := 0 to steps
        invariant errorCode == old(errorCode) && (k > 0 ==> errorCode == 0)
        invariant reserved == old(reserved) && calls == FirstCall(old(calls), |chunks|, k)
        invariant forall j | 0 <= j < k :: old(StepFine(calls, j, size, dMem, chunks, mappings, live))
        invariant Phase(k, dMem, chunks, handles[..], old(mappings), old(live))
        invariant access == AccessAfter(k, old(access), Span(dMem, size))
      {
        TakeStep(size, dMem, handles, chunks, k, old(calls), old(mappings), old(live), old(access));
        if errorCode != 0 {
          assert old(errorCode) == 0 ==> !old(StepFine(calls, k, size, dMem, chunks, mappings, live));
          return;
        }
      }
      if steps % 2 == 1 {
        forall x | dMem <= x < dMem + size ensures CoveredOnce(x, dMem, chunks, handles[..]) {
          AwakeCoversRange(size, dMem, chunks, handles[..], old(mappings), old(live), x);
        }
      }
    }

    /** A backed allocation is not the same as one that was rolled back. */
    lemma AwakeIsNotAsleep(dMem: nat, chunks: seq<nat>, handles: seq<nat>,
                           otherMappings: map<nat, Mapping>, otherLive: map<nat, nat>)
      requires |handles| == |chunks| > 0 && Positive(chunks)
      requires Awake(dMem, chunks, handles, otherMappings, otherLive)
      ensures !Asleep(otherMappings, otherLive)
    {
      assert TileIsClear(otherMappings, dMem, chunks, 0);
      if dMem in otherMappings { ClearAt(otherMappings, dMem, chunks[0], dMem); }
      TileHas(otherMappings, dMem, chunks, handles, |chunks|, 0);
    }

    /** Mapping `a` holds address `x`. */
    ghost predicate HoldsAddress(a: nat, x: nat)
      reads this`mappings
    {
      a in mappings && a <= x < a + mappings[a].size
    }

    /** Chunk `i` of the allocation is mapped at `x` and live, and nothing else is mapped there. */
    ghost predicate CoveredBy(i: nat, x: nat, dMem: nat, chunks: seq<nat>, handles: seq<nat>)
      requires |handles| == |chunks|
      reads this`mappings, this`live
    {
      && i < |chunks|
      && var a := dMem + Offset(chunks, i);
         && HoldsAddress(a, x) && mappings[a] == Mapping(chunks[i], handles[i])
         && handles[i] in live && live[handles[i]] == chunks[i]
         && forall b {:trigger HoldsAddress(b, x)} :: HoldsAddress(b, x) ==> b == a
    }

    ghost predicate CoveredOnce(x: nat, dMem: nat, chunks: seq<nat>, handles: seq<nat>)
      requires |handles| == |chunks|
      reads this`mappings, this`live
    {
      exists i :: CoveredBy(i, x, dMem, chunks, handles)
    }

    /** While awake, every chunk is mapped at its place and live. */
    lemma ChunkIsThere(dMem: nat, chunks: seq<nat>, handles: seq<nat>,
                       otherMappings: map<nat, Mapping>, otherLive: map<nat, nat>, i: nat)
      requires i < |chunks| == |handles| && Positive(chunks) && Awake(dMem, chunks, handles, otherMappings, otherLive)
      ensures var a := dMem + Offset(chunks, i);
              && a in mappings && mappings[a] == Mapping(chunks[i], handles[i])
              && handles[i] in live && live[handles[i]] == chunks[i]
    {
      TileHas(otherMappings, dMem, chunks, handles, |chunks|, i);
      BackingSize(otherLive, chunks, handles, |chunks|, i);
    }

    /** No mapping but that of chunk `i` holds an address of its tile. */
    lemma OneMapping(dMem: nat, chunks: seq<nat>, handles: seq<nat>, otherMappings: map<nat, Mapping>, i: nat, x: nat,
                     b: nat)
      requires i < |chunks| == |handles| && Positive(chunks) && TilesAreClear(otherMappings, dMem, chunks, |chunks|)
      requires mappings == Tiles(otherMappings, dMem, chunks, handles, |chunks|)
      requires dMem + Offset(chunks, i) <= x < dMem + Offset(chunks, i) + chunks[i] && HoldsAddress(b, x)
      ensures b == dMem + Offset(chunks, i)
    {
      if b !in otherMappings {
        var j := TileIsOne(otherMappings, dMem, chunks, handles, |chunks|, b);
        SameTile(chunks, i, j, x - dMem);
      } else {
        RestStays(otherMappings, dMem, chunks, handles, |chunks|, b);
        assert TileIsClear(otherMappings, dMem, chunks, i);
        ClearAt(otherMappings, dMem + Offset(chunks, i), chunks[i], b);
      }
    }

    /** While awake, every address of the range lies in exactly one mapping, backed by a live chunk of the allocation. */
    lemma AwakeCoversRange(size: nat, dMem: nat, chunks: seq<nat>, handles: seq<nat>,
                           otherMappings: map<nat, Mapping>, otherLive: map<nat, nat>, x: nat)
      requires |handles| == |chunks| && Positive(chunks) && Sum(chunks) == size && dMem <= x < dMem + size
      requires Awake(dMem, chunks, handles, otherMappings, otherLive)
      ensures CoveredOnce(x, dMem, chunks, handles)
    {
      var i := TileOf(size, chunks, x - dMem);
      ChunkIsThere(dMem, chunks, handles, otherMappings, otherLive, i);
      forall b | HoldsAddress(b, x) ensures b == dMem + Offset(chunks, i) {
        OneMapping(dMem, chunks, handles, otherMappings, i, x, b);
      }
      assert CoveredBy(i, x, dMem, chunks, handles);
    }
  }
}
