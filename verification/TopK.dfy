/**
Masked selection of the largest logits (vllm/vllm/_xpu_ops.py, `top_k_per_row_decode`).

Each row belongs to a query of a sequence and may select positions up to the query's own. The library's selection is
a parameter: any choice of largest entries will do.
*/
module TopK {
  import opened Integers
  import opened LogitValues
  import opened Sorting

  // ----- the library's selection -----

  predicate NoneLarger(row: seq<Logit>, p: int, q: int) {
    0 <= p < |row| && 0 <= q < |row| && AtMost(row[p], row[q])
  }

  /** `top` are `k` different positions, and no position left out has a larger entry than one of them. */
  predicate IsTopK(row: seq<Logit>, k: nat, top: seq<int>) {
    && |top| == k && Distinct(top)
    && (forall c | 0 <= c < k :: 0 <= top[c] < |row|)
    && forall p, c {:trigger NoneLarger(row, p, top[c])} | 0 <= p < |row| && p !in top && 0 <= c < k ::
         NoneLarger(row, p, top[c])
  }

  ghost predicate IsSelection(select: (seq<Logit>, nat) -> seq<int>) {
    forall row: seq<Logit>, k: nat {:trigger select(row, k)} | k <= |row| :: IsTopK(row, k, select(row, k))
  }

  // ----- one row -----

  function MaskRow(row: seq<Logit>, end: int): (r: seq<Logit>)
    ensures |r| == |row| && forall p | 0 <= p < |row| :: r[p] == if p <= end then row[p] else NegInf
  {
    seq(|row|, p requires 0 <= p < |row| => if p <= end then row[p] else NegInf)
  }

  function DropBeyond(top: seq<int>, end: int): (r: seq<int>)
    ensures |r| == |top| && forall c | 0 <= c < |top| :: r[c] == if top[c] > end then -1 else top[c]
  {
    seq(|top|, c requires 0 <= c < |top| => if top[c] > end then -1 else top[c])
  }

  function DecodeRow(row: seq<Logit>, end: int, k: nat, select: (seq<Logit>, nat) -> seq<int>): seq<int> {
    DropBeyond(select(MaskRow(row, end), Min(k, |row|)), end)
  }

  /** The positions a row may select. */
  function Visible(width: nat, end: int): nat {
    if end < 0 then 0 else Min(width, end + 1)
  }

  function Count(out: seq<int>): nat {
    if out == [] then 0 else Count(out[..|out| - 1]) + if out[|out| - 1] == -1 then 0 else 1
  }

  /** Entries are different visible positions or the filler, and no visible position left out is larger than one of them. */
  predicate SelectsLargest(row: seq<Logit>, end: int, out: seq<int>) {
    && (forall c | 0 <= c < |out| && out[c] != -1 :: 0 <= out[c] < Visible(|row|, end))
    && (forall c, d | 0 <= c < d < |out| && out[c] != -1 :: out[c] != out[d])
    && forall p, c {:trigger NoneLarger(row, p, out[c])}
         | 0 <= p < Visible(|row|, end) && p !in out && 0 <= c < |out| && out[c] != -1 :: NoneLarger(row, p, out[c])
  }

  lemma StillThere(top: seq<int>, end: int, p: int)
    ensures p in top && p <= end ==> p in DropBeyond(top, end)
  {
    if i :| 0 <= i < |top| && top[i] == p <= end {
      assert DropBeyond(top, end)[i] == p;
    }
  }

  lemma KeptEntries(row: seq<Logit>, end: int, k: nat, top: seq<int>)
    requires IsTopK(MaskRow(row, end), k, top)
    ensures SelectsLargest(row, end, DropBeyond(top, end))
  {
    var out, masked := DropBeyond(top, end), MaskRow(row, end);
    forall p, c | 0 <= p < Visible(|row|, end) && p !in out && 0 <= c < |out| && out[c] != -1
      ensures NoneLarger(row, p, out[c])
    {
      StillThere(top, end, p);
      assert NoneLarger(masked, p, top[c]);
    }
  }

  // ----- how many are selected -----

  ghost function Entries(out: seq<int>): (r: set<int>)
    ensures forall x :: x in r <==> x in out && x != -1
    ensures |r| <= |out|
  {
    if out == [] then {}
    else
      var front, last := out[..|out| - 1], out[|out| - 1];
      assert out == front + [last];
      if last == -1 then Entries(front) else Entries(front) + {last}
  }

  ghost function Range(n: nat): (r: set<int>)
    ensures forall x :: x in r <==> 0 <= x < n
    ensures |r| == n
  {
    if n == 0 then {} else Range(n - 1) + {n - 1}
  }

  lemma SubsetSize(a: set<int>, b: set<int>)
    requires a <= b
    ensures |a| <= |b|
  {
    assert b == a + (b - a);
  }

  lemma {:induction false} CountIsSize(out: seq<int>)
    requires forall c, d | 0 <= c < d < |out| && out[c] != -1 :: out[c] != out[d]
    ensures Count(out) == |Entries(out)|
  {
    if out != [] {
      CountIsSize(out[..|out| - 1]);
    }
  }

  lemma {:induction false} CountAll(out: seq<int>)
    requires -1 !in out
    ensures Count(out) == |out|
  {
    if out != [] {
      CountAll(out[..|out| - 1]);
    }
  }

  /** The visible positions among the first `n` whose logits are finite. */
  function FiniteVisible(row: seq<Logit>, end: int, n: nat): (r: set<int>)
    requires n <= |row|
    ensures forall x :: x in r <==> 0 <= x < n && x <= end && row[x].Finite?
  {
    if n == 0 then {}
    else if n - 1 <= end && row[n - 1].Finite? then FiniteVisible(row, end, n - 1) + {n - 1}
    else FiniteVisible(row, end, n - 1)
  }

  /** Once a masked position is selected, all finite ones have been. */
  lemma AllFinite(row: seq<Logit>, end: int, k: nat, top: seq<int>, c: nat)
    requires IsTopK(MaskRow(row, end), k, top) && c < k && top[c] > end
    ensures FiniteVisible(row, end, |row|) <= Entries(DropBeyond(top, end))
  {
    forall p | p in FiniteVisible(row, end, |row|) ensures p in DropBeyond(top, end) {
      assert p !in top ==> NoneLarger(MaskRow(row, end), p, top[c]);
      StillThere(top, end, p);
    }
  }

  lemma SelectsVisible(row: seq<Logit>, end: int, k: nat, top: seq<int>)
    requires IsTopK(MaskRow(row, end), k, top)
    ensures var out := DropBeyond(top, end);
            Count(out) == |Entries(out)| <= k && Count(out) <= Visible(|row|, end)
  {
    var out := DropBeyond(top, end);
    KeptEntries(row, end, k, top);
    CountIsSize(out);
    SubsetSize(Entries(out), Range(Visible(|row|, end)));
  }

  lemma SelectsFinite(row: seq<Logit>, end: int, k: nat, top: seq<int>)
    requires IsTopK(MaskRow(row, end), k, top)
    ensures var out := DropBeyond(top, end);
            Count(out) == k || FiniteVisible(row, end, |row|) <= Entries(out)
  {
    if c :| 0 <= c < k && top[c] > end {
      AllFinite(row, end, k, top, c);
    } else {
      CountAll(DropBeyond(top, end));
    }
  }

  /** As many positions are selected as asked for, or all with finite logits; never more than are visible. */
  lemma SelectsEnough(row: seq<Logit>, end: int, k: nat, top: seq<int>)
    requires IsTopK(MaskRow(row, end), k, top)
    ensures Min(k, |FiniteVisible(row, end, |row|)|) <= Count(DropBeyond(top, end)) <= Min(k, Visible(|row|, end))
  {
    SelectsVisible(row, end, k, top);
    SelectsFinite(row, end, k, top);
    var entries, finite := Entries(DropBeyond(top, end)), FiniteVisible(row, end, |row|);
    if finite <= entries {
      SubsetSize(finite, entries);
    }
  }

  lemma FiniteAreFew(row: seq<Logit>, end: int, n: nat)
    requires n <= |row|
    ensures |FiniteVisible(row, end, n)| <= Visible(n, end)
  {
    SubsetSize(FiniteVisible(row, end, n), Range(Visible(n, end)));
  }

  /** If the visible logits are finite, exactly as many positions are selected as asked for and possible. */
  lemma AllFiniteVisible(row: seq<Logit>, end: int)
    requires forall p | 0 <= p < Visible(|row|, end) :: row[p].Finite?
    ensures |FiniteVisible(row, end, |row|)| == Visible(|row|, end)
  {
    assert FiniteVisible(row, end, |row|) == Range(Visible(|row|, end));
  }

  // ----- all rows -----

  /** The position of query `r % nextN` of its sequence: the last of `nextN` queries is at the sequence's end. */
  function EndPosition(seqLens: seq<int>, nextN: nat, r: nat): int
    requires nextN > 0 && r < |seqLens| * nextN
  {
    QuotientBelow(r, nextN, |seqLens|);
    seqLens[r / nextN] - nextN + r % nextN
  }

  lemma EndOfQuery(seqLens: seq<int>, nextN: nat, b: nat, q: nat)
    requires b < |seqLens| && q < nextN
    ensures b * nextN + q < |seqLens| * nextN
    ensures EndPosition(seqLens, nextN, b * nextN + q) == seqLens[b] - 1 - (nextN - 1 - q)
  {
    assert (|seqLens| - b) * nextN == |seqLens| * nextN - b * nextN;
    AtLeastOnce(|seqLens| - b, nextN);
    Quotient(b * nextN + q, nextN, b, q);
  }

  function Cells(raw: array2<int>, r: nat, n: nat): (s: seq<int>)
    requires r < raw.Length0 && n <= raw.Length1
    reads raw
    ensures |s| == n && forall c | 0 <= c < n :: s[c] == raw[r, c]
  {
    seq(n, c requires 0 <= c < n reads raw => raw[r, c])
  }

  /**
  Every row of the buffer gets the largest logits of its visible positions, as many as there are, and the filler
  behind them; cells outside the result are not touched.
  */
  method TopKPerRowDecode(logits: seq<seq<Logit>>, width: nat, nextN: nat, seqLens: seq<int>, raw: array2<int>, topkTokens: nat,
                          select: (seq<Logit>, nat) -> seq<int>)
    requires nextN > 0 && |logits| == |seqLens| * nextN && forall r | 0 <= r < |logits| :: |logits[r]| == width
    requires |logits| <= raw.Length0 && Min(topkTokens, width) <= raw.Length1
    requires IsSelection(select)
    modifies raw
    ensures forall r | 0 <= r < |logits| ::
              var end, out := EndPosition(seqLens, nextN, r), Cells(raw, r, Min(topkTokens, width));
              && SelectsLargest(logits[r], end, out)
              && Min(topkTokens, |FiniteVisible(logits[r], end, width)|) <= Count(out) <= Min(topkTokens, Visible(width, end))
    ensures forall r, c | 0 <= r < raw.Length0 && 0 <= c < raw.Length1 && (r >= |logits| || c >= Min(topkTokens, width)) ::
              raw[r, c] == old(raw[r, c])
  {
    var realTopk := Min(topkTokens, width);
    var indices := seq(|logits|, r requires 0 <= r < |logits| =>
      DecodeRow(logits[r], EndPosition(seqLens, nextN, r), topkTokens, select));
    forall r, c | 0 <= r < |logits| && 0 <= c < realTopk {
      raw[r, c] := indices[r][c];
    }
    forall r | 0 <= r < |logits|
      ensures var end, out := EndPosition(seqLens, nextN, r), Cells(raw, r, realTopk);
              && SelectsLargest(logits[r], end, out)
              && Min(topkTokens, |FiniteVisible(logits[r], end, width)|) <= Count(out) <= Min(topkTokens, Visible(width, end))
    {
      var end := EndPosition(seqLens, nextN, r);
      var top := select(MaskRow(logits[r], end), realTopk);
      assert Cells(raw, r, realTopk) == DropBeyond(top, end);
      KeptEntries(logits[r], end, realTopk, top);
      SelectsEnough(logits[r], end, realTopk, top);
      FiniteAreFew(logits[r], end, width);
    }
  }

  // ----- a selection -----

  /** The largest entry among the first `n` that are not taken, or -1. */
  function Best(row: seq<Logit>, taken: seq<int>, n: nat): (b: int)
    requires n <= |row|
    ensures -1 <= b < n && (b >= 0 ==> b !in taken)
    ensures b == -1 ==> forall p | 0 <= p < n :: p in taken
    ensures b >= 0 ==> forall p | 0 <= p < n && p !in taken :: NoneLarger(row, p, b)
  {
    if n == 0 then -1
    else
      var b := Best(row, taken, n - 1);
      if n - 1 in taken || (b >= 0 && AtMost(row[n - 1], row[b])) then b else n - 1
  }

  /** The largest entries, one after the other; among equal ones, the first. */
  function Largest(row: seq<Logit>, k: nat): (top: seq<int>)
  {
    if k == 0 then []
    else
      var top := Largest(row, k - 1);
      top + [Best(row, top, |row|)]
  }

  lemma TopKSnoc(row: seq<Logit>, k: nat, top: seq<int>, b: int)
    requires IsTopK(row, k, top) && 0 <= b < |row| && b !in top
    requires forall p {:trigger NoneLarger(row, p, b)} | 0 <= p < |row| && p !in top :: NoneLarger(row, p, b)
    ensures IsTopK(row, k + 1, top + [b])
  {
    var longer := top + [b];
    forall p, c | 0 <= p < |row| && p !in longer && 0 <= c < k + 1 ensures NoneLarger(row, p, longer[c]) {
      assert p !in top;
      assert c < k ==> NoneLarger(row, p, top[c]);
    }
  }

  lemma {:induction false} LargestIsTopK(row: seq<Logit>, k: nat)
    requires k <= |row|
    ensures IsTopK(row, k, Largest(row, k))
  {
    if k > 0 {
      LargestIsTopK(row, k - 1);
      var top := Largest(row, k - 1);
      var b := Best(row, top, |row|);
      if b == -1 {
        AllTaken(row, top);
      }
      TopKSnoc(row, k - 1, top, b);
    }
  }

  lemma AllTaken(row: seq<Logit>, taken: seq<int>)
    requires forall p | 0 <= p < |row| :: p in taken
    ensures |row| <= |taken|
  {
    SubsetSize(Range(|row|), Entries(taken));
  }

  /** Selections exist. */
  lemma LargestIsSelection()
    ensures IsSelection(Largest)
  {
    var select := Largest;
    forall row: seq<Logit>, k: nat {:trigger select(row, k)} | k <= |row| ensures IsTopK(row, k, select(row, k)) {
      LargestIsTopK(row, k);
    }
  }
}
