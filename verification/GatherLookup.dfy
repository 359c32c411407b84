/**
Finding the tokens of a ragged batch in the paged key cache (vllm/vllm/_xpu_ops.py,
`cp_gather_indexer_k_quant_cache`).

`cu` holds the cumulative sequence lengths: sequence `b` owns the tokens from `cu[b]` up to `cu[b + 1]`. The lookup
of a token's sequence is right for every batch. The slot that is then read is not: the theorems say exactly
for which tokens, and for which batches, it is.
*/
module GatherLookup {
  import opened Integers

  predicate Cumulative(cu: seq<int>) {
    && |cu| >= 2 && cu[0] == 0
    && forall i, j | 0 <= i <= j < |cu| :: cu[i] <= cu[j]
  }

  /** `torch.searchsorted`: the first place whose entry is not below `v`. */
  function SearchSorted(cu: seq<int>, v: int): (i: nat)
    ensures i <= |cu| && (i < |cu| ==> cu[i] >= v)
    ensures forall j | 0 <= j < i :: cu[j] < v
  {
    if cu == [] then 0
    else
      var i := SearchSorted(cu[..|cu| - 1], v);
      if i < |cu| - 1 then i else if cu[i] >= v then i else i + 1
  }

  /** The sequence of token `t`, counted from zero. */
  function SequenceOf(cu: seq<int>, t: nat): int {
    Clamp(SearchSorted(cu, t + 1) - 1, 0, |cu| - 2)
  }

  /** The token's place in its sequence, counted from one. */
  function PlaceOf(cu: seq<int>, t: nat): int
    requires |cu| >= 2
  {
    t + 1 - cu[SequenceOf(cu, t)]
  }

  predicate Owns(cu: seq<int>, b: int, t: int) {
    0 <= b < |cu| - 1 && cu[b] <= t < cu[b + 1]
  }

  lemma OwnerUnique(cu: seq<int>, t: int, a: int, b: int)
    requires Cumulative(cu) && Owns(cu, b, t)
    ensures Owns(cu, a, t) ==> a == b
  {
    assert 0 <= a < b ==> cu[a + 1] <= cu[b];
    assert b < a < |cu| ==> cu[b + 1] <= cu[a];
  }

  /** The lookup finds the one sequence that owns the token, with or without its clamp; empty sequences own nothing. */
  lemma LookupIsOwner(cu: seq<int>, t: nat, b: int)
    requires Cumulative(cu) && t < cu[|cu| - 1]
    ensures Owns(cu, b, t) <==> b == SequenceOf(cu, t)
    ensures SequenceOf(cu, t) == SearchSorted(cu, t + 1) - 1
  {
    var i := SearchSorted(cu, t + 1);
    assert 0 < i < |cu|;
    assert Owns(cu, i - 1, t);
    OwnerUnique(cu, t, b, i - 1);
  }

  /** The clamp takes effect exactly on tokens behind the last sequence. */
  lemma ClampOnlyPastTheEnd(cu: seq<int>, t: nat)
    requires Cumulative(cu)
    ensures SequenceOf(cu, t) != SearchSorted(cu, t + 1) - 1 <==> t >= cu[|cu| - 1]
  {
    if t < cu[|cu| - 1] {
      LookupIsOwner(cu, t, 0);
    }
  }

  lemma PlaceInSequence(cu: seq<int>, t: nat)
    requires Cumulative(cu) && t < cu[|cu| - 1]
    ensures var b := SequenceOf(cu, t); 1 <= PlaceOf(cu, t) <= cu[b + 1] - cu[b]
  {
    LookupIsOwner(cu, t, SequenceOf(cu, t));
  }

  // ----- the slot that is read -----

  datatype Slot = Slot(block: int, offset: int) | OutOfBounds

  /** The block is looked up with the place counted from one, the offset with the place counted from zero. */
  function SlotRead(table: seq<seq<int>>, cu: seq<int>, t: nat, blockSize: nat): Slot
    requires blockSize > 0 && |cu| >= 2
  {
    var b, place := SequenceOf(cu, t), PlaceOf(cu, t);
    var column := place / blockSize;
    if b < |table| && 0 <= column < |table[b]| then Slot(table[b][column], (place - 1) % blockSize) else OutOfBounds
  }

  /** Where the token is: blocks are filled one after the other. */
  function SlotOf(table: seq<seq<int>>, b: nat, index: nat, blockSize: nat): Slot
    requires blockSize > 0
  {
    if b < |table| && index / blockSize < |table[b]| then Slot(table[b][index / blockSize], index % blockSize)
    else OutOfBounds
  }

  lemma Column(place: nat, blockSize: nat)
    requires place > 0 && blockSize > 0
    ensures place / blockSize == (place - 1) / blockSize + if place % blockSize == 0 then 1 else 0
  {
    var q, r := (place - 1) / blockSize, (place - 1) % blockSize;
    assert place == q * blockSize + (r + 1);
    if r + 1 < blockSize {
      Quotient(place, blockSize, q, r + 1);
    } else {
      assert place == (q + 1) * blockSize + 0;
      Quotient(place, blockSize, q + 1, 0);
    }
  }

  predicate DistinctBlocks(table: seq<seq<int>>) {
    forall b, i, j | 0 <= b < |table| && 0 <= i < j < |table[b]| :: table[b][i] != table[b][j]
  }

  /** The last token of each block is read from the block after it, any other token from its own slot. */
  lemma ReadsShiftedBlock(table: seq<seq<int>>, cu: seq<int>, t: nat, blockSize: nat)
    requires Cumulative(cu) && t < cu[|cu| - 1] && blockSize > 0
    ensures var b := SequenceOf(cu, t);
            var index := t - cu[b];
            SlotRead(table, cu, t, blockSize)
            == SlotOf(table, b, if (index + 1) % blockSize == 0 then index + blockSize else index, blockSize)
  {
    PlaceInSequence(cu, t);
    var b := SequenceOf(cu, t);
    var index := t - cu[b];
    Column(index + 1, blockSize);
    var q, r := index / blockSize, index % blockSize;
    assert index == q * blockSize + r;
    assert index + blockSize == (q + 1) * blockSize + r;
    Quotient(index + blockSize, blockSize, q + 1, r);
  }

  /** Sequence `b` has a block for each of its tokens. */
  predicate HasBlocks(table: seq<seq<int>>, cu: seq<int>, blockSize: nat)
    requires blockSize > 0
  {
    && |table| == |cu| - 1
    && forall b | 0 <= b < |table| :: cu[b + 1] - cu[b] <= |table[b]| * blockSize
  }

  predicate ReadRight(table: seq<seq<int>>, cu: seq<int>, t: nat, blockSize: nat)
    requires blockSize > 0 && |cu| >= 2 && 0 <= t - cu[SequenceOf(cu, t)]
  {
    SlotRead(table, cu, t, blockSize) == SlotOf(table, SequenceOf(cu, t), t - cu[SequenceOf(cu, t)], blockSize)
  }

  /** A token is read from its own slot exactly if it is not the last of a block. */
  lemma ReadRightIff(table: seq<seq<int>>, cu: seq<int>, t: nat, blockSize: nat)
    requires Cumulative(cu) && t < cu[|cu| - 1] && blockSize > 0
    requires DistinctBlocks(table) && HasBlocks(table, cu, blockSize)
    ensures t - cu[SequenceOf(cu, t)] >= 0
    ensures ReadRight(table, cu, t, blockSize) <==> (t + 1 - cu[SequenceOf(cu, t)]) % blockSize != 0
  {
    PlaceInSequence(cu, t);
    ReadsShiftedBlock(table, cu, t, blockSize);
    var b := SequenceOf(cu, t);
    var index := t - cu[b];
    QuotientBelow(index, blockSize, |table[b]|);
    Column(index + 1, blockSize);
  }

  /** A whole batch is read right exactly if none of its sequences fills a block. */
  lemma BatchReadRightIff(table: seq<seq<int>>, cu: seq<int>, blockSize: nat)
    requires Cumulative(cu) && blockSize > 0
    requires DistinctBlocks(table) && HasBlocks(table, cu, blockSize)
    ensures (forall t: nat | t < cu[|cu| - 1] :: t - cu[SequenceOf(cu, t)] >= 0 && ReadRight(table, cu, t, blockSize))
            <==> forall b | 0 <= b < |cu| - 1 :: cu[b + 1] - cu[b] < blockSize
  {
    if b :| 0 <= b < |cu| - 1 && cu[b + 1] - cu[b] >= blockSize {
      var t := cu[b] + blockSize - 1;
      assert Owns(cu, b, t) && cu[b + 1] <= cu[|cu| - 1];
      LookupIsOwner(cu, t, b);
      ReadRightIff(table, cu, t, blockSize);
      Quotient(blockSize, blockSize, 1, 0);
    } else {
      forall t: nat | t < cu[|cu| - 1] ensures t - cu[SequenceOf(cu, t)] >= 0 && ReadRight(table, cu, t, blockSize) {
        ReadRightIff(table, cu, t, blockSize);
        PlaceInSequence(cu, t);
        var place := PlaceOf(cu, t);
        Quotient(place, blockSize, 0, place);
      }
    }
  }

  // ----- what was written there -----

  /** Byte `j` of a slot as it is written: one row of key and scale after the other. */
  function AddressWritten(slot: Slot, j: nat, blockSize: nat, headDim: nat): int
    requires slot.Slot?
  {
    (slot.block * blockSize + slot.offset) * (headDim + 4) + j
  }

  /** Byte `j` of a key as it is read: the keys of a block one after the other. */
  function AddressRead(slot: Slot, j: nat, blockSize: nat, headDim: nat): int
    requires slot.Slot?
  {
    slot.block * (blockSize * (headDim + 4)) + slot.offset * headDim + j
  }

  /** Addresses in different blocks differ, and in the same block only the first slot has the same address. */
  lemma SameAddress(read: Slot, own: Slot, j: nat, blockSize: nat, headDim: nat)
    requires read.Slot? && own.Slot? && 0 <= read.offset == own.offset < blockSize && j < headDim
    ensures AddressRead(read, j, blockSize, headDim) == AddressWritten(own, j, blockSize, headDim)
            <==> read.block == own.block && own.offset == 0
  {
    var row, o := headDim + 4, own.offset;
    var a, b := o * headDim + j, o * row + j;
    Distribute(own.block, blockSize, o, row);
    FourMore(o, headDim);
    OffsetBelow(o, blockSize, row, j);
    SameBlock(read.block, own.block, blockSize * row, a, b);
  }

  lemma Distribute(x: int, n: nat, o: nat, row: nat)
    ensures (x * n + o) * row == x * (n * row) + o * row
  {
  }

  lemma FourMore(o: nat, headDim: nat)
    ensures o * (headDim + 4) == o * headDim + 4 * o >= 0
  {
  }

  lemma OffsetBelow(o: nat, n: nat, row: nat, j: nat)
    requires o < n && j < row
    ensures o * row + j < n * row
  {
    assert (n - o) * row == n * row - o * row;
    AtLeastOnce(n - o, row);
  }

  // ----- scales -----

  const SCALE_SIZE := 4

  /** Byte `j` of a scale as it is written: behind the key of its row. */
  function ScaleWritten(slot: Slot, j: nat, blockSize: nat, headDim: nat): int
    requires slot.Slot?
  {
    AddressWritten(slot, headDim + j, blockSize, headDim)
  }

  /** Byte `j` of a scale as it is read: the scales of a block one after the other, behind one key. */
  function ScaleRead(slot: Slot, j: nat, blockSize: nat, headDim: nat): int
    requires slot.Slot?
  {
    slot.block * (blockSize * (headDim + 4)) + headDim + slot.offset * SCALE_SIZE + j
  }

  lemma SameScaleAddress(read: Slot, own: Slot, j: nat, blockSize: nat, headDim: nat)
    requires read.Slot? && own.Slot? && 0 <= read.offset == own.offset < blockSize && j < SCALE_SIZE && headDim > 0
    ensures ScaleRead(read, j, blockSize, headDim) == ScaleWritten(own, j, blockSize, headDim)
            <==> read.block == own.block && own.offset == 0
  {
    var row, o := headDim + 4, own.offset;
    var a, b := o * 4 + (headDim + j), o * row + (headDim + j);
    Distribute(own.block, blockSize, o, row);
    FourMore(o, headDim);
    OffsetBelow(o, blockSize, row, headDim + j);
    AtLeastOnce(headDim, o);
    SameBlock(read.block, own.block, blockSize * row, a, b);
  }

  lemma SameBlock(x: int, y: int, stride: nat, a: nat, b: nat)
    requires a < stride && b < stride
    ensures x * stride + a == y * stride + b <==> x == y && a == b
  {
    Quotient(x * stride + a, stride, x, a);
    Quotient(y * stride + b, stride, y, b);
  }

  /**
  A token's key is read back from where it was written exactly if it is in the first of several slots of its block.
  */
  lemma KeyReadBackIff(table: seq<seq<int>>, cu: seq<int>, t: nat, b: nat, index: nat, blockSize: nat, headDim: nat, j: nat)
    requires Cumulative(cu) && t < cu[|cu| - 1] && blockSize > 0 && j < headDim
    requires DistinctBlocks(table) && HasBlocks(table, cu, blockSize)
    requires b == SequenceOf(cu, t) && index == t - cu[b]
    ensures var read, own := SlotRead(table, cu, t, blockSize), SlotOf(table, b, index, blockSize);
            && own.Slot?
            && (read.Slot? && AddressRead(read, j, blockSize, headDim) == AddressWritten(own, j, blockSize, headDim)
                <==> blockSize > 1 && index % blockSize == 0)
  {
    var read, own := SlotRead(table, cu, t, blockSize), SlotOf(table, b, index, blockSize);
    PlaceInSequence(cu, t);
    QuotientBelow(index, blockSize, |table[b]|);
    Column(index + 1, blockSize);
    NextOffset(index, blockSize);
    if read.Slot? {
      SameAddress(read, own, j, blockSize, headDim);
    }
  }

  lemma NextOffset(index: nat, blockSize: nat)
    requires blockSize > 0
    ensures (index + 1) % blockSize == 0 <==> index % blockSize == blockSize - 1
  {
    var q, r := index / blockSize, index % blockSize;
    assert index == q * blockSize + r;
    if r + 1 < blockSize {
      Quotient(index + 1, blockSize, q, r + 1);
    } else {
      assert index + 1 == (q + 1) * blockSize;
      Quotient(index + 1, blockSize, q + 1, 0);
    }
  }

  /** The same for the token's scale. */
  lemma ScaleReadBackIff(table: seq<seq<int>>, cu: seq<int>, t: nat, b: nat, index: nat, blockSize: nat, headDim: nat, j: nat)
    requires Cumulative(cu) && t < cu[|cu| - 1] && blockSize > 0 && headDim > 0 && j < SCALE_SIZE
    requires DistinctBlocks(table) && HasBlocks(table, cu, blockSize)
    requires b == SequenceOf(cu, t) && index == t - cu[b]
    ensures var read, own := SlotRead(table, cu, t, blockSize), SlotOf(table, b, index, blockSize);
            && own.Slot?
            && (read.Slot? && ScaleRead(read, j, blockSize, headDim) == ScaleWritten(own, j, blockSize, headDim)
                <==> blockSize > 1 && index % blockSize == 0)
  {
    var read, own := SlotRead(table, cu, t, blockSize), SlotOf(table, b, index, blockSize);
    PlaceInSequence(cu, t);
    QuotientBelow(index, blockSize, |table[b]|);
    Column(index + 1, blockSize);
    NextOffset(index, blockSize);
    if read.Slot? {
      SameScaleAddress(read, own, j, blockSize, headDim);
    }
  }
}
