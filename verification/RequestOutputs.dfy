/**
Merging streamed outputs (vllm/vllm/outputs.py, `RequestOutput.add`).

A request answers with several completions, told apart by their index. Deltas that arrive while the consumer
is busy are merged into the output that waits for it. The theorem is that merging is associative: it makes
no difference how many deltas were merged beforehand.
*/
module RequestOutputs {
  import opened Logprobs
  import opened Options
  import opened Searching

  datatype Completion = Completion(
    index: int,
    text: string,
    tokenIds: seq<int>,
    cumulativeLogprob: Option<real>,
    logprobs: Option<seq<seq<Item>>>,
    routedExperts: Option<seq<int>>,
    finishReason: Option<string>,
    stopReason: Option<string>,
    loraRequest: Option<string>)

  // ----- merging completions -----

  predicate HasLogprobs(c: Completion) {
    c.logprobs.Some? && c.logprobs.value != []
  }

  /** The assertion made before log probabilities are merged. */
  predicate Mergeable(c: Completion, next: Completion) {
    HasLogprobs(next) ==> c.logprobs.Some?
  }

  function JoinLogprobs(c: Completion, next: Completion): Option<seq<seq<Item>>> {
    if !HasLogprobs(next) then c.logprobs
    else Some((if c.logprobs.Some? then c.logprobs.value else []) + next.logprobs.value)
  }

  /** `next` appended to `c`: contents are concatenated, the state is that of `next`. */
  function Join(c: Completion, next: Completion): Completion {
    c.(text := c.text + next.text,
       tokenIds := c.tokenIds + next.tokenIds,
       logprobs := JoinLogprobs(c, next),
       cumulativeLogprob := next.cumulativeLogprob,
       finishReason := next.finishReason,
       stopReason := next.stopReason)
  }

  /** What a failing assertion leaves: text and tokens have been appended already. */
  function HalfJoin(c: Completion, next: Completion): Completion {
    c.(text := c.text + next.text, tokenIds := c.tokenIds + next.tokenIds)
  }

  lemma JoinAssociative(a: Completion, b: Completion, c: Completion)
    ensures Join(Join(a, b), c) == Join(a, Join(b, c))
    ensures Mergeable(a, Join(b, c)) && Mergeable(b, c) ==> Mergeable(a, b) && Mergeable(Join(a, b), c)
    ensures Mergeable(a, b) && Mergeable(Join(a, b), c) ==>
              Mergeable(a, Join(b, c)) && (Mergeable(b, c) <==> !(b.logprobs.None? && HasLogprobs(c)))
  {
    assert a.text + b.text + c.text == a.text + (b.text + c.text);
    assert a.tokenIds + b.tokenIds + c.tokenIds == a.tokenIds + (b.tokenIds + c.tokenIds);
    if HasLogprobs(b) && HasLogprobs(c) {
      var x := if a.logprobs.Some? then a.logprobs.value else [];
      assert x + b.logprobs.value + c.logprobs.value == x + (b.logprobs.value + c.logprobs.value);
    } else if HasLogprobs(c) {
      assert [] + c.logprobs.value == c.logprobs.value;
    }
  }

  /** Where the completion with an index is, or the number of completions. */
  function Locate(outs: seq<Completion>, index: int): (i: nat)
    ensures i <= |outs| && (i < |outs| ==> outs[i].index == index)
  {
    FirstWith((c: Completion) => c.index, outs, index)
  }

  lemma LocateFirst(outs: seq<Completion>, index: int, j: nat)
    requires j < Locate(outs, index)
    ensures outs[j].index != index
  {
  }

  /** Sequences of completions with the same indices locate them alike. */
  lemma LocateAlike(outs: seq<Completion>, others: seq<Completion>, index: int)
    requires |outs| <= |others| && forall k | 0 <= k < |outs| :: outs[k].index == others[k].index
    requires forall k | |outs| <= k < |others| :: others[k].index != index
    ensures Locate(others, index) == if Locate(outs, index) < |outs| then Locate(outs, index) else |others|
  {
    var i, j := Locate(outs, index), Locate(others, index);
    assert i < |outs| ==> others[i].index == index;
    assert j < |outs| ==> outs[j].index == index;
  }

  function MergeOne(outs: seq<Completion>, next: Completion, aggregate: bool): (r: seq<Completion>)
    ensures |outs| <= |r| <= |outs| + 1
  {
    var i := Locate(outs, next.index);
    if i == |outs| then outs + [next]
    else outs[i := if aggregate then Join(outs[i], next) else next]
  }

  function MergeAll(outs: seq<Completion>, nexts: seq<Completion>, aggregate: bool): seq<Completion> {
    if nexts == [] then outs
    else MergeOne(MergeAll(outs, nexts[..|nexts| - 1], aggregate), nexts[|nexts| - 1], aggregate)
  }

  /** The assertion holds for one completion, and for a list of them. */
  predicate OneMergeable(outs: seq<Completion>, next: Completion) {
    var i := Locate(outs, next.index);
    i < |outs| ==> Mergeable(outs[i], next)
  }

  predicate AllMergeable(outs: seq<Completion>, nexts: seq<Completion>) {
    nexts != [] ==>
      && AllMergeable(outs, nexts[..|nexts| - 1])
      && OneMergeable(MergeAll(outs, nexts[..|nexts| - 1], true), nexts[|nexts| - 1])
  }

  // ----- one entry per index, in order of first arrival -----

  predicate DistinctIndices(outs: seq<Completion>) {
    forall i, j | 0 <= i < j < |outs| :: outs[i].index != outs[j].index
  }

  function Indices(outs: seq<Completion>): (r: seq<int>)
    ensures |r| == |outs| && forall i | 0 <= i < |outs| :: r[i] == outs[i].index
  {
    seq(|outs|, i requires 0 <= i < |outs| => outs[i].index)
  }

  /** New members of `more`, in order, behind those already known. */
  function Arrivals(known: seq<int>, more: seq<int>): seq<int> {
    if more == [] then known
    else
      var before := Arrivals(known, more[..|more| - 1]);
      if more[|more| - 1] in before then before else before + [more[|more| - 1]]
  }

  lemma MergeOneIndices(outs: seq<Completion>, next: Completion, aggregate: bool)
    ensures var known := Indices(outs);
            Indices(MergeOne(outs, next, aggregate)) == if next.index in known then known else known + [next.index]
    ensures DistinctIndices(outs) ==> DistinctIndices(MergeOne(outs, next, aggregate))
  {
    var i := Locate(outs, next.index);
    if i < |outs| {
      assert Indices(outs)[i] == next.index;
    } else {
      forall j | 0 <= j < |outs| ensures outs[j].index != next.index { LocateFirst(outs, next.index, j); }
    }
  }

  lemma {:induction false} MergeKeepsDistinct(outs: seq<Completion>, nexts: seq<Completion>, aggregate: bool)
    requires DistinctIndices(outs)
    ensures DistinctIndices(MergeAll(outs, nexts, aggregate))
  {
    if nexts != [] {
      var front, last := nexts[..|nexts| - 1], nexts[|nexts| - 1];
      MergeKeepsDistinct(outs, front, aggregate);
      MergeOneIndices(MergeAll(outs, front, aggregate), last, aggregate);
    }
  }

  /** First arrivals keep their order, and no index gets a second entry. */
  lemma {:induction false} MergeKeepsArrivalOrder(outs: seq<Completion>, nexts: seq<Completion>, aggregate: bool)
    ensures Indices(MergeAll(outs, nexts, aggregate)) == Arrivals(Indices(outs), Indices(nexts))
  {
    if nexts != [] {
      var front, last := nexts[..|nexts| - 1], nexts[|nexts| - 1];
      MergeKeepsArrivalOrder(outs, front, aggregate);
      MergeOneIndices(MergeAll(outs, front, aggregate), last, aggregate);
      assert Indices(nexts)[..|nexts| - 1] == Indices(front);
    }
  }

  // ----- what each entry holds -----

  /** The completions with one index, in order. */
  function Only(nexts: seq<Completion>, index: int): seq<Completion> {
    if nexts == [] then []
    else
      var before := Only(nexts[..|nexts| - 1], index);
      if nexts[|nexts| - 1].index == index then before + [nexts[|nexts| - 1]] else before
  }

  function JoinAll(first: Completion, more: seq<Completion>): Completion {
    if more == [] then first else Join(JoinAll(first, more[..|more| - 1]), more[|more| - 1])
  }

  function Texts(cs: seq<Completion>): string {
    if cs == [] then "" else Texts(cs[..|cs| - 1]) + cs[|cs| - 1].text
  }

  function Tokens(cs: seq<Completion>): seq<int> {
    if cs == [] then [] else Tokens(cs[..|cs| - 1]) + cs[|cs| - 1].tokenIds
  }

  function AllLogprobs(cs: seq<Completion>): seq<seq<Item>> {
    if cs == [] then []
    else
      var last := cs[|cs| - 1].logprobs;
      if last.Some? then AllLogprobs(cs[..|cs| - 1]) + last.value else AllLogprobs(cs[..|cs| - 1])
  }

  /** Contents are concatenated in order; reasons and cumulative log probability are the latest. */
  lemma {:induction false} JoinAllContents(first: Completion, more: seq<Completion>)
    ensures var r := JoinAll(first, more);
            && r.index == first.index && r.routedExperts == first.routedExperts && r.loraRequest == first.loraRequest
            && r.text == first.text + Texts(more)
            && r.tokenIds == first.tokenIds + Tokens(more)
            && var last := if more == [] then first else more[|more| - 1];
               r.finishReason == last.finishReason && r.stopReason == last.stopReason
               && r.cumulativeLogprob == last.cumulativeLogprob
  {
    if more != [] {
      var front, last := more[..|more| - 1], more[|more| - 1];
      JoinAllContents(first, front);
      assert first.text + Texts(front) + last.text == first.text + (Texts(front) + last.text);
      assert first.tokenIds + Tokens(front) + last.tokenIds == first.tokenIds + (Tokens(front) + last.tokenIds);
    }
  }

  /** Log probabilities are concatenated too; there are none at all if no completion has any. */
  lemma {:induction false} JoinAllLogprobs(first: Completion, more: seq<Completion>)
    ensures var r, all := JoinAll(first, more).logprobs, AllLogprobs(more);
            r == if first.logprobs.Some? then Some(first.logprobs.value + all) else if all == [] then None else Some(all)
  {
    var x := if first.logprobs.Some? then first.logprobs.value else [];
    if more == [] {
      assert x + [] == x;
    } else {
      var front, last := more[..|more| - 1], more[|more| - 1];
      JoinAllLogprobs(first, front);
      if last.logprobs.Some? {
        var y := last.logprobs.value;
        assert x + AllLogprobs(front) + y == x + (AllLogprobs(front) + y);
        assert y == [] ==> AllLogprobs(front) + y == AllLogprobs(front);
        assert AllLogprobs(front) == [] ==> AllLogprobs(front) + y == y;
      }
    }
  }

  // ----- merging beforehand makes no difference -----

  lemma MergeBehind(outs: seq<Completion>, x: Completion, e: Completion, i: nat, joined: Completion)
    requires x.index != e.index && i == Locate(outs, e.index) < |outs| && joined == Join(outs[i], e)
    ensures MergeOne(MergeOne(outs, x, true), e, true) == MergeOne(outs, x, true)[i := joined]
  {
    LocateAfter(outs, x, e.index);
  }

  lemma MergeBefore(outs: seq<Completion>, x: Completion, e: Completion, i: nat, joined: Completion)
    requires x.index != e.index && i == Locate(outs, e.index) < |outs| && joined == Join(outs[i], e)
    ensures MergeOne(MergeOne(outs, e, true), x, true) == MergeOne(outs, x, true)[i := joined]
  {
    var j, after := Locate(outs, x.index), outs[i := joined];
    assert Locate(after, x.index) == j && (j < |outs| ==> after[j] == outs[j]) by { LocateAfter(outs, e, x.index); }
    UpdateApart(outs, after, x, i, joined, j);
  }

  lemma UpdateApart(outs: seq<Completion>, after: seq<Completion>, x: Completion, i: nat, joined: Completion, j: nat)
    requires i < |outs| && after == outs[i := joined] && i != j
    requires j == Locate(outs, x.index) == Locate(after, x.index) && (j < |outs| ==> after[j] == outs[j])
    ensures MergeOne(after, x, true) == MergeOne(outs, x, true)[i := joined]
  {
    if j < |outs| {
      SwapUpdates(outs, i, joined, j, Join(outs[j], x));
    } else {
      assert (outs + [x])[i := joined] == after + [x];
    }
  }

  /** A completion whose entry exists commutes with one for another index. */
  lemma MergeCommutes(outs: seq<Completion>, x: Completion, e: Completion)
    requires x.index != e.index && Locate(outs, e.index) < |outs|
    ensures MergeOne(MergeOne(outs, x, true), e, true) == MergeOne(MergeOne(outs, e, true), x, true)
  {
    var i := Locate(outs, e.index);
    MergeBehind(outs, x, e, i, Join(outs[i], e));
    MergeBefore(outs, x, e, i, Join(outs[i], e));
  }

  lemma MergeableCommutes(outs: seq<Completion>, x: Completion, e: Completion)
    requires x.index != e.index
    ensures OneMergeable(MergeOne(outs, e, true), x) == OneMergeable(outs, x)
    ensures OneMergeable(MergeOne(outs, x, true), e) == OneMergeable(outs, e)
  {
    LocateAfter(outs, x, e.index);
    LocateAfter(outs, e, x.index);
  }

  lemma SwapUpdates<T>(s: seq<T>, i: nat, x: T, j: nat, y: T)
    requires i < |s| && j < |s| && i != j
    ensures s[i := x][j := y] == s[j := y][i := x]
  {
  }

  /** Merging a completion moves no other index. */
  lemma LocateAfter(outs: seq<Completion>, x: Completion, index: int)
    requires x.index != index
    ensures var i, merged := Locate(outs, index), MergeOne(outs, x, true);
            if i < |outs| then Locate(merged, index) == i && merged[i] == outs[i] else Locate(merged, index) == |merged|
  {
    LocateAlike(outs, MergeOne(outs, x, true), index);
  }

  /** Two completions with the same index can be joined first. */
  lemma MergeJoined(outs: seq<Completion>, b: Completion, e: Completion)
    requires b.index == e.index
    ensures MergeOne(MergeOne(outs, b, true), e, true) == MergeOne(outs, Join(b, e), true)
    ensures Mergeable(b, e) ==>
              (OneMergeable(outs, Join(b, e)) <==> OneMergeable(outs, b) && OneMergeable(MergeOne(outs, b, true), e))
  {
    var i := Locate(outs, b.index);
    LocateMerged(outs, b);
    if i < |outs| {
      JoinAssociative(outs[i], b, e);
    }
  }

  lemma {:induction false} MergedHas(outs: seq<Completion>, nexts: seq<Completion>, k: nat)
    requires k < |nexts|
    ensures var r := MergeAll(outs, nexts, true); Locate(r, nexts[k].index) < |r|
  {
    var front, last := nexts[..|nexts| - 1], nexts[|nexts| - 1];
    var before := MergeAll(outs, front, true);
    if last.index == nexts[k].index {
      LocateMerged(before, last);
    } else {
      MergedHas(outs, front, k);
      LocateAfter(before, last, nexts[k].index);
    }
  }

  lemma MergeSnoc(outs: seq<Completion>, front: seq<Completion>, b: Completion)
    ensures MergeAll(outs, front + [b], true) == MergeOne(MergeAll(outs, front, true), b, true)
    ensures AllMergeable(outs, front + [b])
            <==> AllMergeable(outs, front) && OneMergeable(MergeAll(outs, front, true), b)
  {
    assert (front + [b])[..|front|] == front;
  }

  /** Merging into all but the last of a delta, or into its last. */
  lemma MergeOneSnoc(front: seq<Completion>, b: Completion, e: Completion)
    requires DistinctIndices(front + [b])
    ensures var delta := front + [b];
            var i := Locate(delta, e.index);
            && (i == |delta| ==> MergeOne(delta, e, true) == delta + [e] && OneMergeable(delta, e))
            && (i == |front| ==> b.index == e.index && MergeOne(delta, e, true) == front + [Join(b, e)]
                                 && (OneMergeable(delta, e) <==> Mergeable(b, e)))
            && (i < |front| ==> b.index != e.index && Locate(front, e.index) == i
                                && MergeOne(delta, e, true) == MergeOne(front, e, true) + [b]
                                && (OneMergeable(delta, e) <==> OneMergeable(front, e)))
  {
    var delta := front + [b];
    var i := Locate(delta, e.index);
    if i < |front| {
      LocatePrefix(delta, |front|, e.index);
      assert delta[..|front|] == front;
      assert delta[i].index == e.index && delta[|front|] == b;
    }
  }

  lemma MergeIntoLast(outs: seq<Completion>, front: seq<Completion>, b: Completion, e: Completion)
    requires b.index == e.index
    ensures MergeAll(outs, front + [Join(b, e)], true) == MergeOne(MergeAll(outs, front + [b], true), e, true)
    ensures Mergeable(b, e) ==>
              (AllMergeable(outs, front + [Join(b, e)])
               <==> AllMergeable(outs, front + [b]) && OneMergeable(MergeAll(outs, front + [b], true), e))
  {
    MergeSnoc(outs, front, b);
    MergeSnoc(outs, front, Join(b, e));
    MergeJoined(MergeAll(outs, front, true), b, e);
  }

  lemma MergePastLast(outs: seq<Completion>, front: seq<Completion>, merged: seq<Completion>, b: Completion, e: Completion)
    requires b.index != e.index
    requires var m := MergeAll(outs, front, true);
             MergeAll(outs, merged, true) == MergeOne(m, e, true) && Locate(m, e.index) < |m|
    ensures MergeAll(outs, merged + [b], true) == MergeOne(MergeAll(outs, front + [b], true), e, true)
  {
    MergeSnoc(outs, front, b);
    MergeSnoc(outs, merged, b);
    MergeCommutes(MergeAll(outs, front, true), b, e);
  }

  lemma MergeablePastLast(outs: seq<Completion>, front: seq<Completion>, merged: seq<Completion>, b: Completion, e: Completion)
    requires b.index != e.index
    requires MergeAll(outs, merged, true) == MergeOne(MergeAll(outs, front, true), e, true)
    requires AllMergeable(outs, merged) <==> AllMergeable(outs, front) && OneMergeable(MergeAll(outs, front, true), e)
    ensures AllMergeable(outs, merged + [b])
            <==> AllMergeable(outs, front + [b]) && OneMergeable(MergeAll(outs, front + [b], true), e)
  {
    MergeSnoc(outs, front, b);
    MergeSnoc(outs, merged, b);
    MergeableCommutes(MergeAll(outs, front, true), b, e);
  }

  /** A completion may be merged into a delta before the delta is merged. */
  lemma {:induction false} MergeIntoDelta(outs: seq<Completion>, delta: seq<Completion>, e: Completion)
    requires DistinctIndices(delta)
    ensures MergeAll(outs, MergeOne(delta, e, true), true) == MergeOne(MergeAll(outs, delta, true), e, true)
  {
    var i, n := Locate(delta, e.index), |delta| - 1;
    if i == |delta| {
      MergeSnoc(outs, delta, e);
    } else {
      var front, b := delta[..n], delta[n];
      assert delta == front + [b];
      MergeOneSnoc(front, b, e);
      if i == n {
        MergeIntoLast(outs, front, b, e);
      } else {
        MergeIntoDelta(outs, front, e);
        MergedHas(outs, front, i);
        MergePastLast(outs, front, MergeOne(front, e, true), b, e);
      }
    }
  }

  /** The assertions fail when `e` is merged into the delta beforehand exactly if they fail when it is merged afterwards. */
  predicate FailAlike(outs: seq<Completion>, delta: seq<Completion>, e: Completion) {
    AllMergeable(outs, MergeOne(delta, e, true))
    <==> AllMergeable(outs, delta) && OneMergeable(MergeAll(outs, delta, true), e)
  }

  lemma FailAlikeBeforeLast(outs: seq<Completion>, front: seq<Completion>, b: Completion, e: Completion)
    requires DistinctIndices(front + [b]) && Locate(front + [b], e.index) < |front| && FailAlike(outs, front, e)
    ensures FailAlike(outs, front + [b], e)
  {
    MergeOneSnoc(front, b, e);
    DistinctFront(front, b);
    MergeIntoDelta(outs, front, e);
    MergeablePastLast(outs, front, MergeOne(front, e, true), b, e);
  }

  lemma DistinctFront(front: seq<Completion>, b: Completion)
    requires DistinctIndices(front + [b])
    ensures DistinctIndices(front)
  {
    assert forall k | 0 <= k < |front| :: (front + [b])[k] == front[k];
  }

  lemma FailAlikeAtLast(outs: seq<Completion>, front: seq<Completion>, b: Completion, e: Completion)
    requires DistinctIndices(front + [b]) && Locate(front + [b], e.index) == |front| && Mergeable(b, e)
    ensures FailAlike(outs, front + [b], e)
  {
    MergeOneSnoc(front, b, e);
    MergeIntoLast(outs, front, b, e);
  }

  /** If it can be merged into the delta at all, the assertions fail there or later alike. */
  lemma {:induction false} MergeableIntoDelta(outs: seq<Completion>, delta: seq<Completion>, e: Completion)
    requires DistinctIndices(delta) && OneMergeable(delta, e)
    ensures FailAlike(outs, delta, e)
  {
    var i, n := Locate(delta, e.index), |delta| - 1;
    if i == |delta| {
      MergeSnoc(outs, delta, e);
    } else {
      var front, b := delta[..n], delta[n];
      assert delta == front + [b];
      if i == n {
        FailAlikeAtLast(outs, front, b, e);
      } else {
        assert OneMergeable(front, e) by { MergeOneSnoc(front, b, e); }
        MergeableIntoDelta(outs, front, e);
        FailAlikeBeforeLast(outs, front, b, e);
      }
    }
  }

  lemma LocatePrefix(outs: seq<Completion>, n: nat, index: int)
    requires Locate(outs, index) < n <= |outs|
    ensures Locate(outs[..n], index) == Locate(outs, index)
  {
    var i, j := Locate(outs, index), Locate(outs[..n], index);
    assert outs[..n][i] == outs[i];
    assert j < n ==> outs[j] == outs[..n][j];
  }

  /** Merging deltas into one another first and then merging the result is the same as merging them in turn. */
  lemma {:induction false} MergeAssociative(a: seq<Completion>, b: seq<Completion>, c: seq<Completion>)
    requires DistinctIndices(b)
    ensures MergeAll(a, MergeAll(b, c, true), true) == MergeAll(MergeAll(a, b, true), c, true)
    ensures AllMergeable(b, c) ==>
              (AllMergeable(a, MergeAll(b, c, true)) <==> AllMergeable(a, b) && AllMergeable(MergeAll(a, b, true), c))
  {
    if c != [] {
      var front, e := c[..|c| - 1], c[|c| - 1];
      MergeAssociative(a, b, front);
      MergeKeepsDistinct(b, front, true);
      MergeIntoDelta(a, MergeAll(b, front, true), e);
      if AllMergeable(b, c) {
        MergeableIntoDelta(a, MergeAll(b, front, true), e);
      }
    }
  }

  /** Merging beforehand can trip the assertion where merging in turn does not: a delta without log probabilities. */
  lemma MergingBeforehandCanFail(c: Completion, logprobs: seq<seq<Item>>)
    requires logprobs != []
    ensures var with, without := c.(logprobs := Some(logprobs)), c.(logprobs := None);
            && AllMergeable([with], [without]) && AllMergeable(MergeAll([with], [without], true), [with])
            && !AllMergeable([without], [with])
  {
    var with, without := c.(logprobs := Some(logprobs)), c.(logprobs := None);
    assert [without][..0] == [] && [with][..0] == [];
    assert MergeAll([with], [without], true) == MergeOne([with], without, true);
    assert MergeAll([without], [], true) == [without];
    assert !OneMergeable([without], with);
  }

  // ----- every completion ends up in the entry of its index -----

  lemma {:induction false} CollectFromEmpty(nexts: seq<Completion>, index: int)
    ensures var r, mine := MergeAll([], nexts, true), Only(nexts, index);
            if mine == [] then Locate(r, index) == |r|
            else Locate(r, index) < |r| && r[Locate(r, index)] == JoinAll(mine[0], mine[1..])
  {
    if nexts != [] {
      var front, last := nexts[..|nexts| - 1], nexts[|nexts| - 1];
      CollectFromEmpty(front, index);
      var before, mine := MergeAll([], front, true), Only(front, index);
      if last.index != index {
        LocateAfter(before, last, index);
      } else {
        LocateMerged(before, last);
        if mine != [] {
          assert (mine + [last])[1..] == mine[1..] + [last] && (mine[1..] + [last])[..|mine| - 1] == mine[1..];
        } else {
          assert [last][1..] == [];
        }
      }
    }
  }

  lemma LocateMerged(outs: seq<Completion>, x: Completion)
    ensures Locate(MergeOne(outs, x, true), x.index) == Locate(outs, x.index) < |MergeOne(outs, x, true)|
  {
    var i, merged := Locate(outs, x.index), MergeOne(outs, x, true);
    if i < |outs| {
      LocateAlike(outs, merged, x.index);
    } else {
      LocateSnoc(outs, x);
    }
  }

  lemma LocateSnoc(outs: seq<Completion>, x: Completion)
    requires Locate(outs, x.index) == |outs|
    ensures Locate(outs + [x], x.index) == |outs|
  {
    LocateAppend(outs, x, x.index);
  }

  lemma {:induction false} MergeFromEmpty(outs: seq<Completion>)
    requires DistinctIndices(outs)
    ensures MergeAll([], outs, true) == outs
  {
    if outs != [] {
      var front, last := outs[..|outs| - 1], outs[|outs| - 1];
      MergeFromEmpty(front);
      assert outs == front + [last];
      assert Locate(front, last.index) == |front|;
    }
  }

  lemma {:induction false} MergeSplit(a: seq<Completion>, b: seq<Completion>, c: seq<Completion>)
    ensures MergeAll(a, b + c, true) == MergeAll(MergeAll(a, b, true), c, true)
    ensures AllMergeable(a, b + c) <==> AllMergeable(a, b) && AllMergeable(MergeAll(a, b, true), c)
  {
    if c == [] {
      assert b + c == b;
    } else {
      var front, last := c[..|c| - 1], c[|c| - 1];
      assert b + c == (b + front) + [last];
      MergeSplit(a, b, front);
      MergeSnoc(a, b + front, last);
    }
  }

  /** The entry of an index joins, in order, all completions with that index, old and new. */
  lemma MergeCollects(outs: seq<Completion>, nexts: seq<Completion>, index: int)
    requires DistinctIndices(outs)
    ensures var r, mine := MergeAll(outs, nexts, true), Only(outs + nexts, index);
            if mine == [] then Locate(r, index) == |r|
            else Locate(r, index) < |r| && r[Locate(r, index)] == JoinAll(mine[0], mine[1..])
  {
    MergeFromEmpty(outs);
    MergeSplit([], outs, nexts);
    CollectFromEmpty(outs + nexts, index);
  }

  // ----- without aggregation -----

  /** In `r` the entry of an index is the last of `mine`, or that of `outs` if there is none of them. */
  predicate Replaced(outs: seq<Completion>, mine: seq<Completion>, r: seq<Completion>, index: int) {
    var i, j := Locate(outs, index), Locate(r, index);
    if mine != [] then j < |r| && r[j] == mine[|mine| - 1]
    else if i < |outs| then j == i < |r| && r[j] == outs[i]
    else j == |r|
  }

  lemma ReplaceOne(outs: seq<Completion>, mine: seq<Completion>, before: seq<Completion>, x: Completion, index: int)
    requires Replaced(outs, mine, before, index)
    ensures Replaced(outs, if x.index == index then mine + [x] else mine, MergeOne(before, x, false), index)
  {
    if x.index != index || Locate(before, index) < |before| {
      LocateAlike(before, MergeOne(before, x, false), index);
    } else {
      LocateAppend(before, x, index);
    }
  }

  /** Without aggregation the entry of an index is the latest completion with that index; other entries stay as they are. */
  lemma {:induction false} MergeReplaces(outs: seq<Completion>, nexts: seq<Completion>, index: int)
    ensures Replaced(outs, Only(nexts, index), MergeAll(outs, nexts, false), index)
  {
    if nexts != [] {
      var front, last := nexts[..|nexts| - 1], nexts[|nexts| - 1];
      MergeReplaces(outs, front, index);
      ReplaceOne(outs, Only(front, index), MergeAll(outs, front, false), last, index);
    }
  }

  // ----- when the assertion holds -----

  /** The completion at `k` has no log probabilities, or the first one with its index has some, or it is that first one. */
  predicate FirstHasLogprobs(all: seq<Completion>, k: nat)
    requires k < |all|
  {
    var first := Locate(all, all[k].index);
    HasLogprobs(all[k]) && first < k ==> all[first].logprobs.Some?
  }

  predicate FirstsHaveLogprobs(all: seq<Completion>, from: nat) {
    forall k {:trigger FirstHasLogprobs(all, k)} | from <= k < |all| :: FirstHasLogprobs(all, k)
  }

  lemma LocateAppend(all: seq<Completion>, x: Completion, index: int)
    ensures var i := Locate(all, index);
            Locate(all + [x], index) == if i < |all| then i else if x.index == index then |all| else |all| + 1
  {
    var i, j, longer := Locate(all, index), Locate(all + [x], index), all + [x];
    assert i < |all| ==> longer[i] == all[i];
    assert j < |all| ==> longer[j] == all[j];
    assert longer[|all|] == x;
  }

  lemma LocateInPrefix(all: seq<Completion>, x: Completion, k: nat)
    requires k < |all|
    ensures FirstHasLogprobs(all + [x], k) == FirstHasLogprobs(all, k)
  {
    LocateAppend(all, x, all[k].index);
    LocateFound(all, k);
  }

  lemma LocateFound(all: seq<Completion>, k: nat)
    requires k < |all|
    ensures Locate(all, all[k].index) <= k
  {
  }

  /** The entry of an index in `r` is there, and has log probabilities, exactly if so does the first completion in `all`. */
  predicate LikeFirst(r: seq<Completion>, all: seq<Completion>, index: int) {
    var i, j := Locate(r, index), Locate(all, index);
    && (i < |r| <==> j < |all|)
    && (i < |r| ==> (r[i].logprobs.Some? <==> all[j].logprobs.Some?))
  }

  lemma LikeFirstStep(before: seq<Completion>, all: seq<Completion>, x: Completion, index: int)
    requires LikeFirst(before, all, index) && OneMergeable(before, x)
    ensures LikeFirst(MergeOne(before, x, true), all + [x], index)
  {
    LocateAppend(all, x, index);
    EntryAfter(before, x, index);
  }

  /** As long as the assertion holds, an entry has log probabilities exactly if its first completion has. */
  lemma {:induction false} EntryLikeFirst(outs: seq<Completion>, nexts: seq<Completion>, index: int)
    requires AllMergeable(outs, nexts)
    ensures LikeFirst(MergeAll(outs, nexts, true), outs + nexts, index)
  {
    if nexts == [] {
      assert outs + nexts == outs;
    } else {
      var front, last := nexts[..|nexts| - 1], nexts[|nexts| - 1];
      assert outs + nexts == (outs + front) + [last];
      EntryLikeFirst(outs, front, index);
      LikeFirstStep(MergeAll(outs, front, true), outs + front, last, index);
    }
  }

  lemma EntryAfter(before: seq<Completion>, x: Completion, index: int)
    requires OneMergeable(before, x)
    ensures var after := MergeOne(before, x, true);
            var i, j := Locate(before, index), Locate(after, index);
            && (j < |after| <==> i < |before| || x.index == index)
            && (j < |after| ==>
                  (after[j].logprobs.Some? <==> (if i < |before| then before[i].logprobs.Some? else x.logprobs.Some?)))
  {
    if x.index == index {
      LocateMerged(before, x);
    } else {
      LocateAfter(before, x, index);
    }
  }

  /** The assertion holds throughout exactly if the first completion of every index has log probabilities when a later one has. */
  lemma {:induction false} AllMergeableIff(outs: seq<Completion>, nexts: seq<Completion>)
    ensures AllMergeable(outs, nexts) <==> FirstsHaveLogprobs(outs + nexts, |outs|)
  {
    if nexts == [] {
      assert outs + nexts == outs;
    } else {
      var front, last := nexts[..|nexts| - 1], nexts[|nexts| - 1];
      var all := outs + front;
      AllMergeableIff(outs, front);
      assert outs + nexts == all + [last];
      FirstsSnoc(all, last, |outs|);
      if AllMergeable(outs, front) {
        EntryLikeFirst(outs, front, last.index);
      }
    }
  }

  lemma FirstsSnoc(all: seq<Completion>, last: Completion, from: nat)
    requires from <= |all|
    ensures FirstsHaveLogprobs(all + [last], from)
            <==> FirstsHaveLogprobs(all, from)
                 && var i := Locate(all, last.index);
                    (HasLogprobs(last) && i < |all| ==> all[i].logprobs.Some?)
  {
    var longer := all + [last];
    LocateAppend(all, last, last.index);
    forall k | 0 <= k < |all| ensures FirstHasLogprobs(longer, k) == FirstHasLogprobs(all, k) {
      LocateInPrefix(all, last, k);
    }
    assert FirstsHaveLogprobs(longer, from) ==> FirstHasLogprobs(longer, |all|);
  }

  // ----- whole outputs and streams of them -----

  datatype Output = Output(outputs: seq<Completion>, finished: bool, kvTransferParams: Option<string>)

  function AddTo(a: Output, b: Output): Output {
    Output(MergeAll(a.outputs, b.outputs, true), a.finished || b.finished, b.kvTransferParams)
  }

  function AddStream(first: Output, more: seq<Output>): Output {
    if more == [] then first else AddTo(AddStream(first, more[..|more| - 1]), more[|more| - 1])
  }

  /** A stream is finished once one of its outputs is, and has the transfer parameters of the last one. */
  lemma {:induction false} StreamState(first: Output, more: seq<Output>)
    ensures var r := AddStream(first, more);
            && (r.finished <==> first.finished || exists i | 0 <= i < |more| :: more[i].finished)
            && r.kvTransferParams == if more == [] then first.kvTransferParams else more[|more| - 1].kvTransferParams
  {
    if more != [] {
      StreamState(first, more[..|more| - 1]);
    }
  }

  lemma StreamSnoc(first: Output, more: seq<Output>, last: Output)
    ensures AddStream(first, more + [last]) == AddTo(AddStream(first, more), last)
  {
    assert (more + [last])[..|more|] == more;
  }

  /** The assertion holds while a stream is merged. */
  predicate StreamMergeable(first: Output, more: seq<Output>) {
    more != [] ==>
      && StreamMergeable(first, more[..|more| - 1])
      && AllMergeable(AddStream(first, more[..|more| - 1]).outputs, more[|more| - 1].outputs)
  }

  lemma StreamMergeableSnoc(first: Output, more: seq<Output>, last: Output)
    ensures StreamMergeable(first, more + [last])
            <==> StreamMergeable(first, more) && AllMergeable(AddStream(first, more).outputs, last.outputs)
  {
    assert (more + [last])[..|more|] == more;
  }

  /**
  However a stream is cut, merging its tail beforehand gives the same output; and if the tail can be merged
  beforehand at all, the assertion holds in both orders or in none.
  */
  lemma {:induction false} StreamCut(first: Output, head: seq<Output>, mid: Output, tail: seq<Output>)
    requires DistinctIndices(mid.outputs)
    ensures AddStream(first, head + [mid] + tail) == AddTo(AddStream(first, head), AddStream(mid, tail))
    ensures StreamMergeable(mid, tail) ==>
              (StreamMergeable(first, head + [mid] + tail)
               <==> StreamMergeable(first, head) && AllMergeable(AddStream(first, head).outputs, AddStream(mid, tail).outputs))
  {
    if tail == [] {
      assert head + [mid] + tail == head + [mid];
      StreamSnoc(first, head, mid);
      StreamMergeableSnoc(first, head, mid);
    } else {
      var front, last := tail[..|tail| - 1], tail[|tail| - 1];
      assert tail == front + [last] && head + [mid] + tail == (head + [mid] + front) + [last];
      StreamCut(first, head, mid, front);
      StreamSnoc(first, head + [mid] + front, last);
      StreamSnoc(mid, front, last);
      StreamMergeableSnoc(first, head + [mid] + front, last);
      StreamMergeableSnoc(mid, front, last);
      StreamDistinct(mid, front);
      MergeAssociative(AddStream(first, head).outputs, AddStream(mid, front).outputs, last.outputs);
    }
  }

  /** All completions of a stream, in order. */
  function Flat(more: seq<Output>): seq<Completion> {
    if more == [] then [] else Flat(more[..|more| - 1]) + more[|more| - 1].outputs
  }

  lemma {:induction false} StreamIsFlat(first: Output, more: seq<Output>)
    ensures AddStream(first, more).outputs == MergeAll(first.outputs, Flat(more), true)
    ensures StreamMergeable(first, more) <==> AllMergeable(first.outputs, Flat(more))
  {
    if more != [] {
      var front, last := more[..|more| - 1], more[|more| - 1];
      StreamIsFlat(first, front);
      MergeSplit(first.outputs, Flat(front), last.outputs);
    }
  }

  /** Of a whole stream, the entry of an index joins all completions with that index, in the order of the stream. */
  lemma StreamCollects(first: Output, more: seq<Output>, index: int)
    requires DistinctIndices(first.outputs)
    ensures var r, mine := AddStream(first, more).outputs, Only(first.outputs + Flat(more), index);
            if mine == [] then Locate(r, index) == |r|
            else Locate(r, index) < |r| && r[Locate(r, index)] == JoinAll(mine[0], mine[1..])
  {
    StreamIsFlat(first, more);
    MergeCollects(first.outputs, Flat(more), index);
  }

  /** Some consecutive outputs of a stream that are merged into one beforehand. */
  datatype Burst = Burst(first: Output, more: seq<Output>)

  function Unmerged(bursts: seq<Burst>): seq<Output> {
    if bursts == [] then []
    else Unmerged(bursts[..|bursts| - 1]) + ([bursts[|bursts| - 1].first] + bursts[|bursts| - 1].more)
  }

  function Premerged(bursts: seq<Burst>): seq<Output> {
    if bursts == [] then []
    else Premerged(bursts[..|bursts| - 1]) + [AddStream(bursts[|bursts| - 1].first, bursts[|bursts| - 1].more)]
  }

  predicate BurstsDistinct(bursts: seq<Burst>) {
    forall i | 0 <= i < |bursts| :: DistinctIndices(bursts[i].first.outputs)
  }

  /** Each burst can be merged by itself. */
  predicate BurstsMergeable(bursts: seq<Burst>) {
    forall i | 0 <= i < |bursts| :: StreamMergeable(bursts[i].first, bursts[i].more)
  }

  /**
  However a stream is cut into bursts that are merged beforehand, the output is the same; and if the bursts can be
  merged by themselves, the assertion holds either way or neither way.
  */
  lemma {:induction false} StreamBursts(first: Output, bursts: seq<Burst>)
    requires BurstsDistinct(bursts)
    ensures AddStream(first, Unmerged(bursts)) == AddStream(first, Premerged(bursts))
    ensures BurstsMergeable(bursts) ==>
              (StreamMergeable(first, Unmerged(bursts)) <==> StreamMergeable(first, Premerged(bursts)))
  {
    if bursts != [] {
      var front, last := bursts[..|bursts| - 1], bursts[|bursts| - 1];
      StreamBursts(first, front);
      StreamCut(first, Unmerged(front), last.first, last.more);
      assert Unmerged(bursts) == Unmerged(front) + [last.first] + last.more;
      StreamSnoc(first, Premerged(front), AddStream(last.first, last.more));
      StreamMergeableSnoc(first, Premerged(front), AddStream(last.first, last.more));
    }
  }

  /** A stream can be merged exactly if the first completion of every index has log probabilities when a later one has. */
  lemma StreamMergeableIff(first: Output, more: seq<Output>)
    ensures StreamMergeable(first, more) <==> FirstsHaveLogprobs(first.outputs + Flat(more), |first.outputs|)
  {
    StreamIsFlat(first, more);
    AllMergeableIff(first.outputs, Flat(more));
  }

  lemma {:induction false} StreamDistinct(first: Output, more: seq<Output>)
    requires DistinctIndices(first.outputs)
    ensures DistinctIndices(AddStream(first, more).outputs)
  {
    if more != [] {
      StreamDistinct(first, more[..|more| - 1]);
      MergeKeepsDistinct(AddStream(first, more[..|more| - 1]).outputs, more[|more| - 1].outputs, true);
    }
  }

  // ----- the code -----

  class CompletionOutput {
    const index: int
    var text: string
    var tokenIds: seq<int>
    var cumulativeLogprob: Option<real>
    var logprobs: Option<seq<seq<Item>>>
    const routedExperts: Option<seq<int>>
    var finishReason: Option<string>
    var stopReason: Option<string>
    const loraRequest: Option<string>

    ghost function Value(): Completion
      reads this
    {
      Completion(index, text, tokenIds, cumulativeLogprob, logprobs, routedExperts, finishReason, stopReason, loraRequest)
    }

    constructor (c: Completion)
      ensures Value() == c
    {
      index, text, tokenIds, cumulativeLogprob := c.index, c.text, c.tokenIds, c.cumulativeLogprob;
      logprobs, routedExperts, loraRequest := c.logprobs, c.routedExperts, c.loraRequest;
      finishReason, stopReason := c.finishReason, c.stopReason;
    }

    /** Appends `next`; not `ok` where the source's assertion fails. */
    method Merge(next: CompletionOutput) returns (ok: bool)
      requires next != this
      modifies this
      ensures ok <==> Mergeable(old(Value()), next.Value())
      ensures Value() == if ok then Join(old(Value()), next.Value()) else HalfJoin(old(Value()), next.Value())
    {
      text := text + next.text;
      tokenIds := tokenIds + next.tokenIds;
      if next.logprobs.Some? && next.logprobs.value != [] {
        if logprobs.None? {
          return false;
        }
        logprobs := Some(logprobs.value + next.logprobs.value);
      }
      cumulativeLogprob := next.cumulativeLogprob;
      finishReason := next.finishReason;
      stopReason := next.stopReason;
      ok := true;
    }
  }

  ghost function Values(cs: seq<CompletionOutput>): (r: seq<Completion>)
    reads cs
    ensures |r| == |cs| && forall i | 0 <= i < |cs| :: r[i] == cs[i].Value()
  {
    seq(|cs|, i requires 0 <= i < |cs| reads cs => cs[i].Value())
  }

  ghost function Objects(cs: seq<CompletionOutput>): set<CompletionOutput> {
    set c | c in cs
  }

  predicate Different(a: CompletionOutput, b: CompletionOutput) {
    a != b
  }

  predicate AllDifferent(cs: seq<CompletionOutput>) {
    forall i, j {:trigger Different(cs[i], cs[j])} | 0 <= i < j < |cs| :: Different(cs[i], cs[j])
  }

  method Search(outs: seq<CompletionOutput>, index: int) returns (i: nat)
    ensures i == Locate(Values(outs), index)
  {
    i := 0;
    while i < |outs| && outs[i].index != index
      invariant i <= |outs| && Locate(Values(outs), index) == i + Locate(Values(outs)[i..], index)
    {
      assert Values(outs)[i..][1..] == Values(outs)[i + 1..];
      i := i + 1;
    }
  }

  lemma StillDifferent(cs: seq<CompletionOutput>, c: CompletionOutput, i: nat)
    requires AllDifferent(cs) && c !in cs && i <= |cs|
    ensures AllDifferent(cs + [c]) && (i < |cs| ==> AllDifferent(cs[i := c]))
  {
    var longer := cs + [c];
    forall j, k | 0 <= j < k < |longer| ensures Different(longer[j], longer[k]) {
      assert k < |cs| ==> Different(cs[j], cs[k]);
    }
    if i < |cs| {
      var changed := cs[i := c];
      forall j, k | 0 <= j < k < |changed| ensures Different(changed[j], changed[k]) {
        assert Different(cs[j], cs[k]);
      }
    }
  }

  /** Merges `next` into entry `i` and leaves the others alone. */
  method MergeAt(outs: seq<CompletionOutput>, i: nat, next: CompletionOutput) returns (ok: bool)
    requires AllDifferent(outs) && next !in outs && i < |outs|
    modifies outs[i]
    ensures ok <==> Mergeable(old(outs[i].Value()), next.Value())
    ensures Values(outs) == old(Values(outs))[i := if ok then Join(old(outs[i].Value()), next.Value())
                                                   else HalfJoin(old(outs[i].Value()), next.Value())]
  {
    forall j | 0 <= j < |outs| && j != i ensures outs[j] != outs[i] {
      assert j < i ==> Different(outs[j], outs[i]);
      assert i < j ==> Different(outs[i], outs[j]);
    }
    ok := outs[i].Merge(next);
  }

  /** What a failing assertion leaves of a list: the entry with the index is merged by half. */
  predicate HalfMerged(outs: seq<Completion>, next: Completion, r: seq<Completion>) {
    var i := Locate(outs, next.index);
    i < |outs| && !Mergeable(outs[i], next) && r == outs[i := HalfJoin(outs[i], next)]
  }

  /** The assertion fails first for completion `k`, which is merged by half. */
  predicate FailedAt(outs: seq<Completion>, nexts: seq<Completion>, k: nat, r: seq<Completion>) {
    k < |nexts| && AllMergeable(outs, nexts[..k]) && HalfMerged(MergeAll(outs, nexts[..k], true), nexts[k], r)
  }

  class RequestOutput {
    var outputs: seq<CompletionOutput>
    var finished: bool
    var kvTransferParams: Option<string>

    /** The body of the loop over the completions of the next output. */
    method AddOne(next: CompletionOutput, aggregate: bool) returns (ok: bool)
      requires AllDifferent(outputs) && next !in outputs
      modifies this`outputs, Objects(outputs)
      ensures ok <==> (aggregate ==> OneMergeable(old(Values(outputs)), next.Value()))
      ensures ok ==> Values(outputs) == MergeOne(old(Values(outputs)), next.Value(), aggregate)
      ensures !ok ==> HalfMerged(old(Values(outputs)), next.Value(), Values(outputs))
      ensures AllDifferent(outputs) && Objects(outputs) <= old(Objects(outputs)) + {next}
      ensures next.Value() == old(next.Value())
    {
      ok := true;
      var i := Search(outputs, next.index);
      StillDifferent(outputs, next, i);
      if i == |outputs| {
        outputs := outputs + [next];
      } else if aggregate {
        ok := MergeAt(outputs, i, next);
      } else {
        outputs := outputs[i := next];
      }
    }

    /** The loop over the completions of the next output, which stops where the assertion fails. */
    method AddAll(nexts: seq<CompletionOutput>, aggregate: bool) returns (ok: bool)
      requires AllDifferent(outputs) && AllDifferent(nexts) && Objects(outputs) !! Objects(nexts)
      modifies this`outputs, Objects(outputs), Objects(nexts)
      ensures ok <==> (aggregate ==> AllMergeable(old(Values(outputs)), old(Values(nexts))))
      ensures ok ==> Values(outputs) == MergeAll(old(Values(outputs)), old(Values(nexts)), aggregate)
      ensures !ok ==> exists k :: FailedAt(old(Values(outputs)), old(Values(nexts)), k, Values(outputs))
    {
      ghost var mine, theirs := Values(outputs), Values(nexts);
      ghost var merged := mine;
      assert theirs[..0] == [];
      for k := 0 to |nexts|
        invariant AllDifferent(outputs) && Objects(outputs) <= old(Objects(outputs)) + Objects(nexts[..k])
        invariant forall j | k <= j < |nexts| :: nexts[j].Value() == theirs[j]
        invariant merged == MergeAll(mine, theirs[..k], aggregate) && Values(outputs) == merged
        invariant aggregate ==> AllMergeable(mine, theirs[..k])
      {
        Remaining(nexts, k);
        ok := AddOne(nexts[k], aggregate);
        if !ok {
          NotMergeable(mine, theirs, k, merged, Values(outputs));
          return;
        }
        merged := MergeStep(mine, theirs, k, aggregate, merged);
      }
      assert theirs[..|theirs|] == theirs;
      ok := true;
    }

    /**
    Merges the next output of the same request into this one. All completions are different objects. The values
    are those of `MergeAll`, and the call fails exactly where the source's assertion does.
    */
    method Add(next: RequestOutput, aggregate: bool) returns (ok: bool)
      requires next != this && AllDifferent(outputs) && AllDifferent(next.outputs)
      requires Objects(outputs) !! Objects(next.outputs)
      modifies this, Objects(outputs), Objects(next.outputs)
      ensures ok <==> (aggregate ==> AllMergeable(old(Values(outputs)), old(Values(next.outputs))))
      ensures ok ==> Values(outputs) == MergeAll(old(Values(outputs)), old(Values(next.outputs)), aggregate)
      ensures !ok ==> exists k :: FailedAt(old(Values(outputs)), old(Values(next.outputs)), k, Values(outputs))
      ensures finished == (old(finished) || next.finished) && kvTransferParams == next.kvTransferParams
      ensures ok && aggregate ==>
                Output(Values(outputs), finished, kvTransferParams)
                == AddTo(old(Output(Values(outputs), finished, kvTransferParams)),
                         old(Output(Values(next.outputs), next.finished, next.kvTransferParams)))
    {
      finished := finished || next.finished;
      kvTransferParams := next.kvTransferParams;
      ok := AddAll(next.outputs, aggregate);
    }
  }

  lemma MergeStep(outs: seq<Completion>, nexts: seq<Completion>, k: nat, aggregate: bool, merged: seq<Completion>)
    returns (merged': seq<Completion>)
    requires k < |nexts| && merged == MergeAll(outs, nexts[..k], aggregate)
    ensures merged' == MergeOne(merged, nexts[k], aggregate) == MergeAll(outs, nexts[..k + 1], aggregate)
    ensures aggregate && AllMergeable(outs, nexts[..k]) && OneMergeable(merged, nexts[k]) ==> AllMergeable(outs, nexts[..k + 1])
  {
    assert nexts[..k + 1][..k] == nexts[..k];
    merged' := MergeOne(merged, nexts[k], aggregate);
  }

  /** Completions that are still to come are not among those already taken. */
  lemma Remaining(nexts: seq<CompletionOutput>, k: nat)
    requires AllDifferent(nexts) && k < |nexts|
    ensures Objects(nexts[..k + 1]) == Objects(nexts[..k]) + {nexts[k]}
    ensures forall j | k <= j < |nexts| :: nexts[j] in Objects(nexts) && nexts[j] !in Objects(nexts[..k])
  {
    forall j | k <= j < |nexts| ensures nexts[j] in Objects(nexts) && nexts[j] !in Objects(nexts[..k]) {
      assert forall i | 0 <= i < k :: Different(nexts[i], nexts[j]);
    }
  }

  lemma NotMergeable(outs: seq<Completion>, nexts: seq<Completion>, k: nat, merged: seq<Completion>, r: seq<Completion>)
    requires k < |nexts| && merged == MergeAll(outs, nexts[..k], true) && AllMergeable(outs, nexts[..k])
    requires HalfMerged(merged, nexts[k], r)
    ensures FailedAt(outs, nexts, k, r) && !AllMergeable(outs, nexts)
  {
    assert nexts[..k + 1][..k] == nexts[..k];
    PrefixMergeable(outs, nexts, k + 1);
  }

  lemma {:induction false} PrefixMergeable(outs: seq<Completion>, nexts: seq<Completion>, k: nat)
    requires k <= |nexts|
    ensures AllMergeable(outs, nexts) ==> AllMergeable(outs, nexts[..k])
  {
    if k == |nexts| {
      assert nexts[..k] == nexts;
    } else {
      var front := nexts[..|nexts| - 1];
      assert front[..k] == nexts[..k];
      PrefixMergeable(outs, front, k);
    }
  }
}
