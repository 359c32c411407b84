/**
Log probabilities per position (vllm/vllm/logprobs.py).

`FlatLogprobs` keeps the entries of all positions in parallel columns and hands them out position by
position. The reference is a plain list of dictionaries; the theorem is that the flat container
is indistinguishable from it.
*/
module Logprobs {
  import opened Integers
  import opened Options
  import opened Searching

  datatype Logprob = Logprob(logprob: real, rank: Option<int>, decodedToken: Option<string>)

  type Item = (int, Logprob)

  // ----- Python dictionaries, in insertion order -----

  predicate IsDict(d: seq<Item>) {
    forall i, j | 0 <= i < j < |d| :: d[i].0 != d[j].0
  }

  /** Where a key is, or the length if it is not there. */
  function Find(d: seq<Item>, key: int): (i: nat)
    ensures i <= |d| && (i < |d| ==> d[i].0 == key)
    ensures forall j | 0 <= j < i :: d[j].0 != key
  {
    FirstWith((item: Item) => item.0, d, key)
  }

  /** Assignment to a key: a known key keeps its place, a new one goes to the end. */
  function Put(d: seq<Item>, item: Item): seq<Item> {
    var i := Find(d, item.0);
    if i < |d| then d[i := item] else d + [item]
  }

  /** A dictionary display or comprehension: the items are assigned one after the other. */
  function FromItems(items: seq<Item>): seq<Item> {
    if items == [] then [] else Put(FromItems(items[..|items| - 1]), items[|items| - 1])
  }

  lemma {:induction false} FromItemsIsDict(items: seq<Item>)
    ensures IsDict(FromItems(items))
  {
    if items != [] {
      FromItemsIsDict(items[..|items| - 1]);
    }
  }

  /** A dictionary is made of its own items. */
  lemma {:induction false} FromItemsOfDict(d: seq<Item>)
    requires IsDict(d)
    ensures FromItems(d) == d
  {
    if d != [] {
      var front, last := d[..|d| - 1], d[|d| - 1];
      FromItemsOfDict(front);
      assert d == front + [last];
      assert forall i | 0 <= i < |front| :: front[i].0 != last.0;
    }
  }

  function Keys(d: seq<Item>): (r: seq<int>)
    ensures |r| == |d| && forall i | 0 <= i < |d| :: r[i] == d[i].0
  {
    seq(|d|, i requires 0 <= i < |d| => d[i].0)
  }

  /** The different ones among some keys, in order of first appearance. */
  function FirstKeys(keys: seq<int>): seq<int> {
    if keys == [] then []
    else
      var before, last := FirstKeys(keys[..|keys| - 1]), keys[|keys| - 1];
      if last in before then before else before + [last]
  }

  /** A dictionary keeps the order in which its keys first came. */
  lemma {:induction false} KeysInOrder(items: seq<Item>)
    ensures Keys(FromItems(items)) == FirstKeys(Keys(items))
  {
    if items != [] {
      var front, last := items[..|items| - 1], items[|items| - 1];
      KeysInOrder(front);
      assert Keys(items)[..|items| - 1] == Keys(front);
      var d := FromItems(front);
      var i := Find(d, last.0);
      assert i < |d| ==> Keys(d)[i] == last.0;
    }
  }

  predicate IsLastWithKey(items: seq<Item>, i: int) {
    0 <= i < |items| && forall j | i < j < |items| :: items[j].0 != items[i].0
  }

  /** Among items with the same key the last one counts, and no key is lost. */
  lemma {:induction false} LastItemWins(items: seq<Item>, i: int)
    requires IsLastWithKey(items, i)
    ensures items[i] in FromItems(items)
  {
    var n := |items| - 1;
    var front := items[..n];
    var before := FromItems(front);
    var k := Find(before, items[n].0);
    if i < n {
      assert IsLastWithKey(front, i);
      LastItemWins(front, i);
      var p :| 0 <= p < |before| && before[p] == items[i];
      assert Put(before, items[n])[p] == items[i];
    } else {
      assert Put(before, items[n])[k] == items[n];
    }
  }

  lemma {:induction false} NothingElse(items: seq<Item>, item: Item)
    requires item in FromItems(items)
    ensures item in items
  {
    var n := |items| - 1;
    if item != items[n] {
      NothingElse(items[..n], item);
    }
  }

  // ----- the columns -----

  datatype Flat = Flat(
    startIndices: seq<int>,
    endIndices: seq<int>,
    tokenIds: seq<int>,
    logprobs: seq<real>,
    ranks: seq<Option<int>>,
    decodedTokens: seq<Option<string>>)

  const EMPTY := Flat([], [], [], [], [], [])

  predicate ColumnsOk(f: Flat) {
    |f.tokenIds| == |f.logprobs| == |f.ranks| == |f.decodedTokens|
  }

  predicate SameLength(f: Flat) {
    ColumnsOk(f) && |f.startIndices| == |f.endIndices|
  }

  predicate RangeOk(f: Flat, p: nat)
    requires SameLength(f) && p < |f.startIndices|
  {
    0 <= f.startIndices[p] <= f.endIndices[p] <= |f.tokenIds|
  }

  predicate InOrder(f: Flat, p: nat, q: nat)
    requires SameLength(f) && p < |f.startIndices| && q < |f.startIndices|
  {
    f.endIndices[p] <= f.startIndices[q]
  }

  /** Ranges lie inside the columns and come one after the other, possibly with gaps. */
  predicate Valid(f: Flat) {
    && SameLength(f)
    && (forall p {:trigger RangeOk(f, p)} | 0 <= p < |f.startIndices| :: RangeOk(f, p))
    && (forall p, q {:trigger InOrder(f, p, q)} | 0 <= p < q < |f.startIndices| :: InOrder(f, p, q))
  }

  function ItemAt(f: Flat, i: nat): Item
    requires ColumnsOk(f) && i < |f.tokenIds|
  {
    (f.tokenIds[i], Logprob(f.logprobs[i], f.ranks[i], f.decodedTokens[i]))
  }

  function Items(f: Flat, lo: nat, hi: nat): (items: seq<Item>)
    requires ColumnsOk(f) && lo <= hi <= |f.tokenIds|
    ensures |items| == hi - lo
  {
    if lo == hi then [] else Items(f, lo, hi - 1) + [ItemAt(f, hi - 1)]
  }

  function PositionAt(f: Flat, p: nat): seq<Item>
    requires Valid(f) && p < |f.startIndices|
  {
    assert RangeOk(f, p);
    FromItems(Items(f, f.startIndices[p], f.endIndices[p]))
  }

  /** The list of dictionaries that the container stands for. */
  function View(f: Flat): (v: seq<seq<Item>>)
    requires Valid(f)
    ensures |v| == |f.startIndices|
  {
    seq(|f.startIndices|, p requires 0 <= p < |f.startIndices| => PositionAt(f, p))
  }

  /** `g` has the positions of `f` and one more range at the end, over columns that continue those of `f`. */
  predicate Continues(f: Flat, g: Flat) {
    && SameLength(f) && SameLength(g)
    && f.startIndices <= g.startIndices && f.endIndices <= g.endIndices
    && f.tokenIds <= g.tokenIds && f.logprobs <= g.logprobs && f.ranks <= g.ranks && f.decodedTokens <= g.decodedTokens
  }

  /** Appending a range leaves what was there, and adds the dictionary of the new items. */
  lemma AppendRange(f: Flat, g: Flat)
    requires Valid(f) && Continues(f, g)
    requires |g.startIndices| == |f.startIndices| + 1
    requires g.startIndices[|f.startIndices|] == |f.tokenIds| && g.endIndices[|f.startIndices|] == |g.tokenIds|
    ensures Valid(g) && View(g) == View(f) + [FromItems(Items(g, |f.tokenIds|, |g.tokenIds|))]
  {
    var n := |f.startIndices|;
    forall p | 0 <= p <= n ensures RangeOk(g, p) {
      if p < n { assert RangeOk(f, p); }
    }
    forall p, q | 0 <= p < q <= n ensures InOrder(g, p, q) {
      assert RangeOk(f, p);
      if q < n { assert InOrder(f, p, q); }
    }
    forall p | 0 <= p < n ensures PositionAt(g, p) == PositionAt(f, p) {
      assert RangeOk(f, p);
      PrefixItems(f, g, f.startIndices[p], f.endIndices[p]);
    }
  }

  // ----- slices -----

  /** A Python slice; parts that are left out have defaults. */
  datatype SliceArg = SliceArg(start: Option<int>, stop: Option<int>, step: Option<int>)

  function StepOf(sl: SliceArg): int {
    if sl.step.Some? then sl.step.value else 1
  }

  /** A bound of a slice: negative ones count from the end, and all are brought into range. */
  function BoundOf(bound: Option<int>, default: int, n: nat, low: int, high: int): int {
    match bound
    case None => default
    case Some(b) => if b < 0 then (if b + n < low then low else b + n) else Min(b, high)
  }

  function StepsUp(from: nat, limit: int, step: nat): (r: seq<nat>)
    requires step > 0
    ensures Ascending(r) && forall j | 0 <= j < |r| :: from <= r[j] < limit
    decreases limit - from
  {
    if from >= limit then [] else [from] + StepsUp(from + step, limit, step)
  }

  function StepsDown(from: int, limit: int, step: nat): (r: seq<nat>)
    requires step > 0 && limit >= -1
    ensures Descending(r) && forall j | 0 <= j < |r| :: limit < r[j] <= from
    decreases from - limit
  {
    if from <= limit then [] else [from] + StepsDown(from - step, limit, step)
  }

  /** The positions that a slice selects from a list of length `n`. */
  function Picks(sl: SliceArg, n: nat): (r: seq<nat>)
    requires StepOf(sl) != 0
    ensures forall j | 0 <= j < |r| :: r[j] < n
    ensures if StepOf(sl) > 0 then Ascending(r) else Descending(r)
  {
    var step := StepOf(sl);
    if step > 0 then StepsUp(BoundOf(sl.start, 0, n, 0, n), BoundOf(sl.stop, n, n, 0, n), step)
    else StepsDown(BoundOf(sl.start, n - 1, n, -1, n - 1), BoundOf(sl.stop, -1, n, -1, n - 1), -step)
  }

  /** Some number of steps leads up to `y`. */
  predicate InSteps(y: nat, step: nat)
    requires step > 0
  {
    y == 0 || (y >= step && InSteps(y - step, step))
  }

  lemma {:induction false} InStepsIsMultiple(y: nat, step: nat)
    requires step > 0
    ensures InSteps(y, step) <==> y % step == 0
  {
    if y < step {
      Quotient(y, step, 0, y);
    } else {
      InStepsIsMultiple(y - step, step);
      var q, r := (y - step) / step, (y - step) % step;
      assert y == (q + 1) * step + r;
      Quotient(y, step, q + 1, r);
    }
  }

  lemma {:induction false} UpInSteps(from: nat, limit: int, step: nat, x: nat)
    requires step > 0
    ensures x in StepsUp(from, limit, step) <==> from <= x < limit && InSteps(x - from, step)
    decreases limit - from
  {
    if from < limit {
      UpInSteps(from + step, limit, step, x);
    }
  }

  lemma {:induction false} DownInSteps(from: int, limit: int, step: nat, x: nat)
    requires step > 0 && limit >= -1
    ensures x in StepsDown(from, limit, step) <==> limit < x <= from && InSteps(from - x, step)
    decreases from - limit
  {
    if from > limit {
      DownInSteps(from - step, limit, step, x);
    }
  }

  /** The multiples of the step between the bounds, and no others. */
  lemma StepsUpMembers(from: nat, limit: int, step: nat, x: nat)
    requires step > 0
    ensures x in StepsUp(from, limit, step) <==> from <= x < limit && (x - from) % step == 0
  {
    UpInSteps(from, limit, step, x);
    if from <= x { InStepsIsMultiple(x - from, step); }
  }

  lemma StepsDownMembers(from: int, limit: int, step: nat, x: nat)
    requires step > 0 && limit >= -1
    ensures x in StepsDown(from, limit, step) <==> limit < x <= from && (from - x) % step == 0
  {
    DownInSteps(from, limit, step, x);
    if x <= from { InStepsIsMultiple(from - x, step); }
  }

  // ----- the laws of slice bounds -----

  /** A negative bound counts from the end. */
  lemma NegativeBounds(sl: SliceArg, n: nat, b: int)
    requires StepOf(sl) != 0 && b < 0 <= b + n
    ensures Picks(sl.(start := Some(b)), n) == Picks(sl.(start := Some(b + n)), n)
    ensures Picks(sl.(stop := Some(b)), n) == Picks(sl.(stop := Some(b + n)), n)
  {
  }

  /** Bounds that run past an end, going forward: the beginning or the end is meant, and nothing begins behind the end. */
  lemma FarBoundsForward(sl: SliceArg, n: nat, b: int)
    requires StepOf(sl) > 0
    ensures b + n < 0 ==> Picks(sl.(start := Some(b)), n) == Picks(sl.(start := Some(0)), n)
    ensures b >= n ==> Picks(sl.(start := Some(b)), n) == []
    ensures b + n < 0 ==> Picks(sl.(stop := Some(b)), n) == []
    ensures b >= n ==> Picks(sl.(stop := Some(b)), n) == Picks(sl.(stop := Some(n)), n)
  {
  }

  /** The same going backward. */
  lemma FarBoundsBackward(sl: SliceArg, n: nat, b: int)
    requires StepOf(sl) < 0
    ensures b + n < 0 ==> Picks(sl.(start := Some(b)), n) == []
    ensures b >= n > 0 ==> Picks(sl.(start := Some(b)), n) == Picks(sl.(start := Some(n - 1)), n)
    ensures b + n < 0 ==> Picks(sl.(stop := Some(b)), n) == Picks(sl.(stop := None), n)
    ensures b >= n - 1 && b >= 0 ==> Picks(sl.(stop := Some(b)), n) == []
  {
  }

  /** What bounds and a step that are left out mean. */
  lemma MissingBounds(sl: SliceArg, n: nat)
    requires StepOf(sl) != 0
    ensures Picks(sl.(step := None), n) == Picks(sl.(step := Some(1)), n)
    ensures StepOf(sl) > 0 ==> Picks(sl.(start := None), n) == Picks(sl.(start := Some(0)), n)
    ensures StepOf(sl) > 0 ==> Picks(sl.(stop := None), n) == Picks(sl.(stop := Some(n)), n)
    ensures StepOf(sl) < 0 && n > 0 ==> Picks(sl.(start := None), n) == Picks(sl.(start := Some(n - 1)), n)
    ensures StepOf(sl) < 0 ==> Picks(sl.(stop := None), n) == Picks(sl.(stop := Some(-1 - n)), n)
  {
  }

  /** Between bounds in range: every step from the start, up to the stop and without it. */
  lemma PicksBetween(lo: nat, hi: nat, step: int, n: nat, x: nat)
    requires step != 0 && lo < n && hi <= n
    ensures var picks := Picks(SliceArg(Some(lo), Some(hi), Some(step)), n);
            x in picks <==> if step > 0 then lo <= x < hi && (x - lo) % step == 0 else hi < x <= lo && (lo - x) % (-step) == 0
  {
    if step > 0 {
      StepsUpMembers(lo, hi, step, x);
    } else {
      StepsDownMembers(lo, Min(hi, n - 1), -step, x);
    }
  }

  /** A negative step without a stop goes down to the first position. */
  lemma PicksDown(lo: nat, step: int, n: nat, x: nat)
    requires step < 0 && lo < n
    ensures x in Picks(SliceArg(Some(lo), None, Some(step)), n) <==> x <= lo && (lo - x) % (-step) == 0
  {
    StepsDownMembers(lo, -1, -step, x);
  }

  lemma {:induction false} PlainSteps(from: nat, limit: nat)
    requires from <= limit
    ensures StepsUp(from, limit, 1) == seq(limit - from, j requires 0 <= j => from + j)
    decreases limit - from
  {
    if from < limit {
      PlainSteps(from + 1, limit);
    }
  }

  /** A plain slice of a list is the part between its bounds. */
  lemma PlainSlice<T>(l: seq<T>, lo: nat, hi: nat)
    requires lo <= hi <= |l|
    ensures Pick(l, Picks(SliceArg(Some(lo), Some(hi), None), |l|)) == l[lo..hi]
  {
    PlainSteps(lo, hi);
  }

  /** The slice goes forward, or selects only one position. */
  predicate Straight(sl: SliceArg, n: nat) {
    StepOf(sl) > 0 || (StepOf(sl) < 0 && |Picks(sl, n)| == 1)
  }

  predicate Selected(f: Flat, picks: seq<nat>) {
    forall j | 0 <= j < |picks| :: picks[j] < |f.startIndices|
  }

  /** `list[lo:hi]` for non-negative bounds. */
  function Cut<T>(s: seq<T>, lo: nat, hi: nat): seq<T>
    requires lo <= |s| && hi <= |s|
  {
    if lo <= hi then s[lo..hi] else []
  }

  /** The container for the positions `picks`, re-based so that the first one starts at 0. */
  function Slice(f: Flat, picks: seq<nat>): Flat
    requires Valid(f) && Selected(f, picks) && picks != []
  {
    assert RangeOk(f, picks[0]) && RangeOk(f, picks[|picks| - 1]);
    var lo, hi := f.startIndices[picks[0]], f.endIndices[picks[|picks| - 1]];
    Flat(
      seq(|picks|, j requires 0 <= j < |picks| => f.startIndices[picks[j]] - lo),
      seq(|picks|, j requires 0 <= j < |picks| => f.endIndices[picks[j]] - lo),
      Cut(f.tokenIds, lo, hi), Cut(f.logprobs, lo, hi), Cut(f.ranks, lo, hi), Cut(f.decodedTokens, lo, hi))
  }

  predicate Ascending(picks: seq<nat>) {
    forall i, j | 0 <= i < j < |picks| :: picks[i] < picks[j]
  }

  predicate Descending(picks: seq<nat>) {
    forall i, j | 0 <= i < j < |picks| :: picks[i] > picks[j]
  }

  function Pick<T>(s: seq<T>, picks: seq<nat>): seq<T>
    requires forall j | 0 <= j < |picks| :: picks[j] < |s|
  {
    seq(|picks|, j requires 0 <= j < |picks| => s[picks[j]])
  }

  lemma {:induction false} CutItems(f: Flat, g: Flat, off: nat, lo: nat, hi: nat)
    requires SameLength(f) && SameLength(g) && lo <= hi <= |g.tokenIds| && off + |g.tokenIds| <= |f.tokenIds|
    requires g.tokenIds == f.tokenIds[off..off + |g.tokenIds|] && g.logprobs == f.logprobs[off..off + |g.tokenIds|]
    requires g.ranks == f.ranks[off..off + |g.tokenIds|]
    requires g.decodedTokens == f.decodedTokens[off..off + |g.tokenIds|]
    ensures Items(g, lo, hi) == Items(f, off + lo, off + hi)
  {
    if lo < hi {
      CutItems(f, g, off, lo, hi - 1);
    }
  }

  lemma SliceRange(f: Flat, picks: seq<nat>, j: nat)
    requires Valid(f) && Selected(f, picks) && Ascending(picks) && j < |picks|
    ensures 0 <= f.startIndices[picks[0]] <= f.startIndices[picks[j]] <= f.endIndices[picks[j]]
            <= f.endIndices[picks[|picks| - 1]] <= |f.tokenIds|
  {
    var first, last := picks[0], picks[|picks| - 1];
    assert RangeOk(f, first) && RangeOk(f, last) && RangeOk(f, picks[j]);
    assert j > 0 ==> InOrder(f, first, picks[j]);
    assert j < |picks| - 1 ==> InOrder(f, picks[j], last);
  }

  lemma SliceIsValid(f: Flat, picks: seq<nat>)
    requires Valid(f) && Selected(f, picks) && picks != [] && Ascending(picks)
    ensures Valid(Slice(f, picks))
  {
    var g := Slice(f, picks);
    SliceRange(f, picks, 0);
    forall j | 0 <= j < |picks| ensures RangeOk(g, j) {
      SliceRange(f, picks, j);
    }
    forall i, j | 0 <= i < j < |picks| ensures InOrder(g, i, j) {
      assert InOrder(f, picks[i], picks[j]);
    }
  }

  lemma SlicePosition(f: Flat, picks: seq<nat>, j: nat)
    requires Valid(f) && Selected(f, picks) && Ascending(picks) && j < |picks|
    requires Valid(Slice(f, picks))
    ensures PositionAt(Slice(f, picks), j) == PositionAt(f, picks[j])
  {
    var g := Slice(f, picks);
    SliceRange(f, picks, 0);
    SliceRange(f, picks, j);
    CutItems(f, g, f.startIndices[picks[0]], g.startIndices[j], g.endIndices[j]);
  }

  /** A slice of the container stands for the slice of the list, gaps and all. */
  lemma SliceIsSlice(f: Flat, picks: seq<nat>)
    requires Valid(f) && Selected(f, picks) && picks != [] && Ascending(picks)
    ensures Valid(Slice(f, picks)) && View(Slice(f, picks)) == Pick(View(f), picks)
  {
    SliceIsValid(f, picks);
    forall j | 0 <= j < |picks| ensures View(Slice(f, picks))[j] == Pick(View(f), picks)[j] {
      SlicePosition(f, picks, j);
    }
  }

  /** What Python accepts as an index into a column. */
  predicate IsIndex(f: Flat, i: int) {
    -|f.tokenIds| <= i < |f.tokenIds|
  }

  /** A position of a container can be read when its range is empty or lies in the columns. */
  predicate Readable(f: Flat, p: nat)
    requires p < |f.startIndices| == |f.endIndices|
  {
    forall i {:trigger IsIndex(f, i)} | f.startIndices[p] <= i < f.endIndices[p] :: IsIndex(f, i)
  }

  /** With a negative step the columns are lost: the slice can be read only where there was nothing to read. */
  lemma DescendingSlice(f: Flat, picks: seq<nat>)
    requires Valid(f) && Selected(f, picks) && |picks| >= 2 && Descending(picks)
    ensures Slice(f, picks).tokenIds == []
    ensures forall j | 0 <= j < |picks| ::
              Readable(Slice(f, picks), j) <==> f.startIndices[picks[j]] == f.endIndices[picks[j]]
  {
    var g, n := Slice(f, picks), |picks|;
    assert RangeOk(f, picks[0]) && RangeOk(f, picks[n - 1]) && InOrder(f, picks[n - 1], picks[0]);
    assert g.tokenIds == [];
    forall j | 0 <= j < n
      ensures Readable(g, j) <==> f.startIndices[picks[j]] == f.endIndices[picks[j]]
    {
      assert RangeOk(f, picks[j]);
      var lo := f.startIndices[picks[0]];
      assert g.startIndices[j] == f.startIndices[picks[j]] - lo;
      assert !IsIndex(g, g.startIndices[j]);
    }
  }

  // ----- growing -----

  function Push(f: Flat, item: Item): Flat {
    f.(tokenIds := f.tokenIds + [item.0],
       logprobs := f.logprobs + [item.1.logprob],
       ranks := f.ranks + [item.1.rank],
       decodedTokens := f.decodedTokens + [item.1.decodedToken])
  }

  function PushAll(f: Flat, items: seq<Item>): Flat {
    if items == [] then f else Push(PushAll(f, items[..|items| - 1]), items[|items| - 1])
  }

  /** The container with one more position, made of `items`. */
  function AppendPosition(f: Flat, items: seq<Item>): Flat {
    var g := PushAll(f.(startIndices := f.startIndices + [|f.logprobs|]), items);
    g.(endIndices := g.endIndices + [|g.logprobs|])
  }

  lemma {:induction false} PushAllItems(f: Flat, items: seq<Item>)
    requires ColumnsOk(f)
    ensures var g := PushAll(f, items);
            && ColumnsOk(g) && |g.tokenIds| == |f.tokenIds| + |items|
            && g.startIndices == f.startIndices && g.endIndices == f.endIndices
            && f.tokenIds <= g.tokenIds && f.logprobs <= g.logprobs && f.ranks <= g.ranks
            && f.decodedTokens <= g.decodedTokens
            && Items(g, |f.tokenIds|, |g.tokenIds|) == items
  {
    if items != [] {
      var front, last := items[..|items| - 1], items[|items| - 1];
      PushAllItems(f, front);
      var g := PushAll(f, front);
      var h := Push(g, last);
      PrefixItems(g, h, |f.tokenIds|, |g.tokenIds|);
      assert items == front + [last];
    }
  }

  lemma {:induction false} PrefixItems(f: Flat, g: Flat, lo: nat, hi: nat)
    requires ColumnsOk(f) && ColumnsOk(g) && lo <= hi <= |f.tokenIds|
    requires f.tokenIds <= g.tokenIds && f.logprobs <= g.logprobs && f.ranks <= g.ranks && f.decodedTokens <= g.decodedTokens
    ensures Items(f, lo, hi) == Items(g, lo, hi)
  {
    if lo < hi {
      PrefixItems(f, g, lo, hi - 1);
    }
  }

  /** One more position: the dictionary of the items is added to the list. */
  lemma AppendPositionView(f: Flat, items: seq<Item>)
    requires Valid(f)
    ensures Valid(AppendPosition(f, items)) && View(AppendPosition(f, items)) == View(f) + [FromItems(items)]
  {
    var started := f.(startIndices := f.startIndices + [|f.logprobs|]);
    PushAllItems(started, items);
    var g := AppendPosition(f, items);
    PrefixItems(PushAll(started, items), g, |f.tokenIds|, |g.tokenIds|);
    AppendRange(f, g);
  }

  /** A dictionary, or nothing, for the next position. */
  type MaybeDict = d: Option<seq<Item>> | d.Some? ==> IsDict(d.value) witness None

  function DictOf(d: MaybeDict): seq<Item> {
    if d.Some? then d.value else []
  }

  function DictsOf(ds: seq<MaybeDict>): (r: seq<seq<Item>>)
    ensures |r| == |ds| && forall i | 0 <= i < |ds| :: r[i] == DictOf(ds[i])
  {
    if ds == [] then [] else DictsOf(ds[..|ds| - 1]) + [DictOf(ds[|ds| - 1])]
  }

  // ----- items for the next position -----

  /** Python's `zip` of the four sequences: as long as the shortest. */
  function Zip(tokenIds: seq<int>, logprobs: seq<real>, ranks: seq<int>, decodedTokens: seq<Option<string>>): seq<Item> {
    var n := Min(Min(|tokenIds|, |logprobs|), Min(|ranks|, |decodedTokens|));
    seq(n, i requires 0 <= i < n => (tokenIds[i], Logprob(logprobs[i], Some(ranks[i]), decodedTokens[i])))
  }

  /** The rank of the sampled token, followed by 1, 2, ... for the top tokens. */
  function Ranks(rank: int, numLogprobs: int): seq<int> {
    [rank] + seq(if numLogprobs < 0 then 0 else numLogprobs, i => i + 1)
  }

  function NextItems(tokenIds: seq<int>, logprobs: seq<real>, decodedTokens: seq<Option<string>>, rank: int,
                     numLogprobs: int): seq<Item> {
    Zip(tokenIds, logprobs, Ranks(rank, if numLogprobs == -1 then |logprobs| else numLogprobs), decodedTokens)
  }

  function Least4(a: nat, b: nat, c: nat, d: nat): nat {
    Min(Min(a, b), Min(c, d))
  }

  /**
  The entries for the next position: as many as the shortest column and the ranks allow; the first one has the rank of
  the sampled token, the others are numbered from one. With -1 there are as many ranks as log probabilities.
  */
  lemma NextItemsAre(tokenIds: seq<int>, logprobs: seq<real>, decodedTokens: seq<Option<string>>, rank: int, numLogprobs: int)
    ensures var items := NextItems(tokenIds, logprobs, decodedTokens, rank, numLogprobs);
            var num := if numLogprobs == -1 then |logprobs| else if numLogprobs < 0 then 0 else numLogprobs;
            && |items| == Least4(|tokenIds|, |logprobs|, |decodedTokens|, num + 1)
            && forall j | 0 <= j < |items| ::
                 items[j] == (tokenIds[j], Logprob(logprobs[j], Some(if j == 0 then rank else j), decodedTokens[j]))
  {
  }

  // ----- the containers -----

  class FlatLogprobs {
    var startIndices: seq<int>
    var endIndices: seq<int>
    var tokenIds: seq<int>
    var logprobs: seq<real>
    var ranks: seq<Option<int>>
    var decodedTokens: seq<Option<string>>

    ghost function Rep(): Flat
      reads this
    {
      Flat(startIndices, endIndices, tokenIds, logprobs, ranks, decodedTokens)
    }

    constructor (f: Flat)
      ensures Rep() == f
    {
      startIndices, endIndices := f.startIndices, f.endIndices;
      tokenIds, logprobs, ranks, decodedTokens := f.tokenIds, f.logprobs, f.ranks, f.decodedTokens;
    }

    method Append(d: MaybeDict)
      requires Valid(Rep())
      modifies this
      ensures Valid(Rep()) && View(Rep()) == old(View(Rep())) + [DictOf(d)]
    {
      ghost var f := Rep();
      AppendPositionView(f, DictOf(d));
      FromItemsOfDict(DictOf(d));
      startIndices := startIndices + [|logprobs|];
      if d.Some? && d.value != [] {
        AppendItems(d.value);
      }
      endIndices := endIndices + [|logprobs|];
    }

    method AppendItems(items: seq<Item>)
      modifies this
      ensures Rep() == PushAll(old(Rep()), items)
    {
      for i := 0 to |items|
        invariant Rep() == PushAll(old(Rep()), items[..i])
      {
        var (tokenId, logprob) := items[i];
        assert items[..i + 1][..i] == items[..i];
        tokenIds := tokenIds + [tokenId];
        logprobs := logprobs + [logprob.logprob];
        ranks := ranks + [logprob.rank];
        decodedTokens := decodedTokens + [logprob.decodedToken];
      }
      assert items[..|items|] == items;
    }

    /** The loop over the zipped columns. */
    method PushColumns(newTokenIds: seq<int>, newLogprobs: seq<real>, newRanks: seq<int>, newTokens: seq<Option<string>>)
      modifies this
      ensures Rep() == PushAll(old(Rep()), Zip(newTokenIds, newLogprobs, newRanks, newTokens))
    {
      ghost var items := Zip(newTokenIds, newLogprobs, newRanks, newTokens);
      var i := 0;
      while i < |newTokenIds| && i < |newLogprobs| && i < |newRanks| && i < |newTokens|
        invariant i <= |items| && Rep() == PushAll(old(Rep()), items[..i])
        decreases |items| - i
      {
        assert items[..i + 1][..i] == items[..i];
        tokenIds := tokenIds + [newTokenIds[i]];
        logprobs := logprobs + [newLogprobs[i]];
        ranks := ranks + [Some(newRanks[i])];
        decodedTokens := decodedTokens + [newTokens[i]];
        i := i + 1;
      }
      assert items[..i] == items;
    }

    /** Appends the next position straight from the columns, without a dictionary. */
    method AppendFast(newTokenIds: seq<int>, newLogprobs: seq<real>, newRanks: seq<int>, newTokens: seq<Option<string>>)
      requires Valid(Rep())
      modifies this
      ensures Valid(Rep())
      ensures View(Rep()) == old(View(Rep())) + [FromItems(Zip(newTokenIds, newLogprobs, newRanks, newTokens))]
    {
      AppendPositionView(Rep(), Zip(newTokenIds, newLogprobs, newRanks, newTokens));
      startIndices := startIndices + [|logprobs|];
      PushColumns(newTokenIds, newLogprobs, newRanks, newTokens);
      endIndices := endIndices + [|logprobs|];
    }

    method Extend(ds: seq<MaybeDict>)
      requires Valid(Rep())
      modifies this
      ensures Valid(Rep()) && View(Rep()) == old(View(Rep())) + DictsOf(ds)
    {
      for i := 0 to |ds|
        invariant Valid(Rep()) && View(Rep()) == old(View(Rep())) + DictsOf(ds[..i])
      {
        assert ds[..i + 1][..i] == ds[..i];
        Append(ds[i]);
      }
      assert ds[..|ds|] == ds;
    }

    /** Reads one position; negative indices count from the end, and there may be no such position. */
    method GetItem(index: int) returns (d: Option<seq<Item>>)
      requires Valid(Rep())
      ensures var n := |View(Rep())|;
              d == if 0 <= index < n then Some(View(Rep())[index])
                   else if -n <= index < 0 then Some(View(Rep())[n + index])
                   else None
    {
      var n := |startIndices|;
      if !(-n <= index < n) {
        return None;
      }
      var p := if index < 0 then n + index else index;
      ghost var f := Rep();
      assert RangeOk(f, p);
      var dict: seq<Item> := [];
      for i := startIndices[p] to endIndices[p]
        invariant dict == FromItems(Items(f, startIndices[p], i))
      {
        dict := Put(dict, (tokenIds[i], Logprob(logprobs[i], ranks[i], decodedTokens[i])));
      }
      d := Some(dict);
    }

    /**
    A new container for the positions that the slice selects. There is none if its step is zero or if it selects
    nothing. It is well-formed and stands for the slice of the list if the step is positive or it selects only one.
    */
    method GetSlice(sl: SliceArg) returns (r: FlatLogprobs?)
      requires Valid(Rep())
      ensures r == null <==> StepOf(sl) == 0 || Picks(sl, |View(Rep())|) == []
      ensures r != null ==> fresh(r) && r.Rep() == Slice(Rep(), Picks(sl, |View(Rep())|))
      ensures r != null && Straight(sl, |View(Rep())|) ==>
                Valid(r.Rep()) && View(r.Rep()) == Pick(View(Rep()), Picks(sl, |View(Rep())|))
    {
      if sl.step == Some(0) {
        return null;
      }
      var picks := Picks(sl, |startIndices|);
      if picks == [] {
        return null;
      }
      var f := Flat(startIndices, endIndices, tokenIds, logprobs, ranks, decodedTokens);
      if Straight(sl, |startIndices|) { SliceIsSlice(f, picks); }
      r := new FlatLogprobs(Slice(f, picks));
    }

    /** Iteration yields the positions in order. */
    method Iterate() returns (ds: seq<seq<Item>>)
      requires Valid(Rep())
      ensures ds == View(Rep())
    {
      ds := [];
      for i := 0 to |startIndices|
        invariant ds == View(Rep())[..i]
      {
        var d := GetItem(i);
        ds := ds + [d.value];
      }
    }
  }

  // ----- whole runs -----

  datatype Op =
    | DoAppend(d: MaybeDict)
    | DoAppendFast(tokenIds: seq<int>, logprobs: seq<real>, ranks: seq<int>, decodedTokens: seq<Option<string>>)
    | DoExtend(ds: seq<MaybeDict>)
    | DoSlice(sl: SliceArg)

  /** The slice selects something. */
  predicate Selects(sl: SliceArg, n: nat) {
    StepOf(sl) != 0 && Picks(sl, n) != []
  }

  /** What an operation does to a plain list. */
  function OnList(l: seq<seq<Item>>, op: Op): seq<seq<Item>> {
    match op
    case DoAppend(d) => l + [DictOf(d)]
    case DoAppendFast(tokenIds, logprobs, ranks, decodedTokens) =>
      l + [FromItems(Zip(tokenIds, logprobs, ranks, decodedTokens))]
    case DoExtend(ds) => l + DictsOf(ds)
    case DoSlice(sl) => if Selects(sl, |l|) && Straight(sl, |l|) then Pick(l, Picks(sl, |l|)) else l
  }

  function AllOnList(l: seq<seq<Item>>, ops: seq<Op>): seq<seq<Item>> {
    if ops == [] then l else OnList(AllOnList(l, ops[..|ops| - 1]), ops[|ops| - 1])
  }

  method Perform(flat: FlatLogprobs, op: Op) returns (r: FlatLogprobs)
    requires Valid(flat.Rep())
    modifies flat
    ensures r == flat || fresh(r)
    ensures Valid(r.Rep()) && View(r.Rep()) == OnList(old(View(flat.Rep())), op)
  {
    r := flat;
    match op
    case DoAppend(d) => r.Append(d);
    case DoAppendFast(tokenIds, logprobs, ranks, decodedTokens) => r.AppendFast(tokenIds, logprobs, ranks, decodedTokens);
    case DoExtend(ds) => r.Extend(ds);
    case DoSlice(sl) =>
      if Selects(sl, |flat.startIndices|) && Straight(sl, |flat.startIndices|) {
        r := flat.GetSlice(sl);
      }
  }

  /** After any run of appends, extensions and slices, iteration yields what a plain list would hold. */
  method Replay(ops: seq<Op>) returns (ds: seq<seq<Item>>)
    ensures ds == AllOnList([], ops)
  {
    var flat := new FlatLogprobs(EMPTY);
    assert View(EMPTY) == [];
    for i := 0 to |ops|
      invariant fresh(flat) && Valid(flat.Rep()) && View(flat.Rep()) == AllOnList([], ops[..i])
    {
      assert ops[..i + 1][..i] == ops[..i];
      flat := Perform(flat, ops[i]);
    }
    assert ops[..|ops|] == ops;
    ds := flat.Iterate();
  }

  /** The plain container: a list of dictionaries. */
  class ListLogprobs {
    var positions: seq<seq<Item>>

    constructor ()
      ensures positions == []
    {
      positions := [];
    }
  }

  datatype Container = FlatContainer(flat: FlatLogprobs) | ListContainer(list: ListLogprobs)

  ghost predicate ContainerValid(c: Container)
    reads if c.FlatContainer? then {c.flat} else {}
  {
    c.FlatContainer? ==> Valid(c.flat.Rep())
  }

  ghost function Positions(c: Container): seq<seq<Item>>
    requires ContainerValid(c)
    reads if c.FlatContainer? then {c.flat as object} else {c.list as object}
  {
    if c.FlatContainer? then View(c.flat.Rep()) else c.list.positions
  }

  /** Both kinds of container get the same dictionary for the next position. */
  method AppendLogprobsForNextPosition(c: Container, tokenIds: seq<int>, logprobs: seq<real>,
                                       decodedTokens: seq<Option<string>>, rank: int, numLogprobs: int)
    requires ContainerValid(c)
    modifies if c.FlatContainer? then {c.flat as object} else {c.list as object}
    ensures ContainerValid(c)
    ensures Positions(c) == old(Positions(c)) + [FromItems(NextItems(tokenIds, logprobs, decodedTokens, rank, numLogprobs))]
  {
    var num := if numLogprobs == -1 then |logprobs| else numLogprobs;
    var ranks := Ranks(rank, num);
    match c
    case FlatContainer(flat) =>
      flat.AppendFast(tokenIds, logprobs, ranks, decodedTokens);
    case ListContainer(list) =>
      var dict: seq<Item> := [];
      ghost var items := Zip(tokenIds, logprobs, ranks, decodedTokens);
      var i := 0;
      while i < |tokenIds| && i < |logprobs| && i < |ranks| && i < |decodedTokens|
        invariant i <= |items| && dict == FromItems(items[..i]) && list.positions == old(list.positions)
        decreases |items| - i
      {
        assert items[..i + 1][..i] == items[..i];
        dict := Put(dict, (tokenIds[i], Logprob(logprobs[i], Some(ranks[i]), decodedTokens[i])));
        i := i + 1;
      }
      assert items[..i] == items;
      list.positions := list.positions + [dict];
  }
}
