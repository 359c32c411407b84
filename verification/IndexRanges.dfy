/**
Printing lists of layer indices (vllm/vllm/model_inspection.py, `_format_index_ranges`).

The theorem is that nothing is lost: reading the printed text and writing the ranges out gives back the sorted list,
for all integers and with repetitions. The ranges are the only ones of which no two could be printed as one.
*/
module IndexRanges {
  import opened Options
  import opened Sorting

  datatype Range = Range(low: int, high: int)

  // ----- ranges -----

  /** An index extends the last range or begins a new one. */
  function Extend(ranges: seq<Range>, x: int): (r: seq<Range>)
    requires ranges != []
    ensures r != [] && r[|r| - 1].high == x
  {
    var n := |ranges| - 1;
    if x == ranges[n].high + 1 then ranges[..n] + [Range(ranges[n].low, x)] else ranges + [Range(x, x)]
  }

  function RangesOf(s: seq<int>): (r: seq<Range>)
    requires s != []
    ensures r != [] && r[|r| - 1].high == s[|s| - 1]
  {
    if |s| == 1 then [Range(s[0], s[0])] else Extend(RangesOf(s[..|s| - 1]), s[|s| - 1])
  }

  function Run(low: int, high: int): seq<int>
    decreases high - low + 1
  {
    if high < low then [] else Run(low, high - 1) + [high]
  }

  function WriteOut(ranges: seq<Range>): seq<int> {
    if ranges == [] then []
    else WriteOut(ranges[..|ranges| - 1]) + Run(ranges[|ranges| - 1].low, ranges[|ranges| - 1].high)
  }

  /** No range is empty, and none goes on where the one before it ends. */
  predicate Maximal(ranges: seq<Range>) {
    ranges != [] ==>
      var before, last := ranges[..|ranges| - 1], ranges[|ranges| - 1];
      Maximal(before) && last.low <= last.high && (before != [] ==> last.low != before[|before| - 1].high + 1)
  }

  lemma WriteOutSnoc(ranges: seq<Range>, last: Range)
    ensures WriteOut(ranges + [last]) == WriteOut(ranges) + Run(last.low, last.high)
  {
    assert (ranges + [last])[..|ranges|] == ranges;
  }

  lemma RunOne(x: int)
    ensures Run(x, x) == [x]
  {
    assert Run(x, x - 1) == [];
  }

  lemma ExtendWritesOut(ranges: seq<Range>, x: int)
    requires ranges != [] && ranges[|ranges| - 1].low <= ranges[|ranges| - 1].high
    ensures WriteOut(Extend(ranges, x)) == WriteOut(ranges) + [x]
  {
    var n := |ranges| - 1;
    var before, last := ranges[..n], ranges[n];
    if x == last.high + 1 {
      assert ranges == before + [Range(last.low, x - 1)];
      GrowLast(before, last.low, x);
    } else {
      AddLast(ranges, x);
    }
  }

  lemma {:induction false} RangesWriteOut(s: seq<int>)
    requires s != []
    ensures WriteOut(RangesOf(s)) == s
  {
    if |s| == 1 {
      RunOne(s[0]);
    } else {
      var x, front := s[|s| - 1], s[..|s| - 1];
      assert s == front + [x];
      RangesWriteOut(front);
      RangesMaximal(front);
      ExtendWritesOut(RangesOf(front), x);
    }
  }

  lemma ExtendMaximal(ranges: seq<Range>, x: int)
    requires ranges != [] && Maximal(ranges)
    ensures Maximal(Extend(ranges, x))
  {
    var n := |ranges| - 1;
    if x == ranges[n].high + 1 {
      MaximalParts(ranges[..n], Range(ranges[n].low, x));
    } else {
      MaximalParts(ranges, Range(x, x));
    }
  }

  lemma {:induction false} RangesMaximal(s: seq<int>)
    requires s != []
    ensures Maximal(RangesOf(s))
  {
    if |s| > 1 {
      RangesMaximal(s[..|s| - 1]);
      ExtendMaximal(RangesOf(s[..|s| - 1]), s[|s| - 1]);
    }
  }

  lemma GrowLast(before: seq<Range>, low: int, high: int)
    requires low < high
    ensures var shorter := before + [Range(low, high - 1)];
            && Extend(shorter, high) == before + [Range(low, high)]
            && WriteOut(before + [Range(low, high)]) == WriteOut(shorter) + [high]
  {
    WriteOutSnoc(before, Range(low, high - 1));
    WriteOutSnoc(before, Range(low, high));
    assert WriteOut(before) + (Run(low, high - 1) + [high]) == WriteOut(before) + Run(low, high - 1) + [high];
  }

  lemma AddLast(before: seq<Range>, x: int)
    ensures WriteOut(before + [Range(x, x)]) == WriteOut(before) + [x]
    ensures before != [] && before[|before| - 1].high + 1 != x ==> Extend(before, x) == before + [Range(x, x)]
  {
    WriteOutSnoc(before, Range(x, x));
    RunOne(x);
  }

  lemma MaximalParts(before: seq<Range>, last: Range)
    ensures Maximal(before + [last])
            <==> Maximal(before) && last.low <= last.high && (before != [] ==> last.low != before[|before| - 1].high + 1)
  {
    assert (before + [last])[..|before|] == before;
  }

  predicate Canonical(ranges: seq<Range>) {
    var s := WriteOut(ranges);
    s != [] && RangesOf(s) == ranges
  }

  lemma CanonicalGrown(before: seq<Range>, low: int, high: int)
    requires low < high && Canonical(before + [Range(low, high - 1)])
    ensures Canonical(before + [Range(low, high)])
  {
    GrowLast(before, low, high);
    Snoc(WriteOut(before + [Range(low, high - 1)]), high);
  }

  lemma CanonicalAdded(before: seq<Range>, x: int)
    requires before != [] ==> Canonical(before) && before[|before| - 1].high + 1 != x
    ensures Canonical(before + [Range(x, x)])
  {
    AddLast(before, x);
    if before != [] {
      Snoc(WriteOut(before), x);
    } else {
      assert WriteOut(before) + [x] == [x];
    }
  }

  /** Maximal ranges are those of the list they stand for: there is one way only to write it. */
  lemma {:induction false} RangesOfWritten(before: seq<Range>, last: Range)
    requires Maximal(before + [last])
    ensures Canonical(before + [last])
    decreases |before|, 1, last.high - last.low
  {
    MaximalParts(before, last);
    if last.low < last.high {
      MaximalParts(before, Range(last.low, last.high - 1));
      RangesOfWritten(before, Range(last.low, last.high - 1));
      CanonicalGrown(before, last.low, last.high);
    } else {
      if before != [] {
        FrontWritten(before);
      }
      CanonicalAdded(before, last.high);
    }
  }

  lemma {:induction false} FrontWritten(before: seq<Range>)
    requires before != [] && Maximal(before)
    ensures Canonical(before)
    decreases |before|, 0, 0
  {
    var n := |before| - 1;
    assert before == before[..n] + [before[n]];
    RangesOfWritten(before[..n], before[n]);
  }

  lemma Snoc(s: seq<int>, x: int)
    requires s != []
    ensures RangesOf(s + [x]) == Extend(RangesOf(s), x)
  {
    assert (s + [x])[..|s|] == s;
  }

  predicate Ascending(s: seq<int>) {
    forall i, j | 0 <= i < j < |s| :: s[i] < s[j]
  }

  /** Each range begins behind the end of the one before it, and not directly behind: disjoint and in order. */
  predicate Apart(ranges: seq<Range>) {
    ranges != [] ==>
      var before, last := ranges[..|ranges| - 1], ranges[|ranges| - 1];
      Apart(before) && last.low <= last.high && (before != [] ==> before[|before| - 1].high + 1 < last.low)
  }

  lemma ApartParts(before: seq<Range>, last: Range)
    ensures Apart(before + [last])
            <==> Apart(before) && last.low <= last.high && (before != [] ==> before[|before| - 1].high + 1 < last.low)
  {
    assert (before + [last])[..|before|] == before;
  }

  lemma ExtendApart(ranges: seq<Range>, x: int)
    requires ranges != [] && Apart(ranges) && ranges[|ranges| - 1].high < x
    ensures Apart(Extend(ranges, x))
  {
    var n := |ranges| - 1;
    if x == ranges[n].high + 1 {
      ApartParts(ranges[..n], Range(ranges[n].low, x));
    } else {
      ApartParts(ranges, Range(x, x));
    }
  }

  lemma {:induction false} RangesApart(s: seq<int>)
    requires s != [] && Ascending(s)
    ensures Apart(RangesOf(s))
  {
    if |s| > 1 {
      RangesApart(s[..|s| - 1]);
      ExtendApart(RangesOf(s[..|s| - 1]), s[|s| - 1]);
    }
  }

  // ----- text -----

  predicate IsDigit(c: char) {
    '0' <= c <= '9'
  }

  function DigitValue(c: char): nat
    requires IsDigit(c)
  {
    (c - '0') as nat
  }

  function Digit(n: nat): (c: char)
    requires n < 10
    ensures IsDigit(c) && DigitValue(c) == n
  {
    '0' + n as char
  }

  function ShowNat(n: nat): (s: string)
    ensures s != "" && IsDigit(s[0])
  {
    if n < 10 then [Digit(n)] else ShowNat(n / 10) + [Digit(n % 10)]
  }

  function Show(x: int): (s: string)
    ensures s != ""
  {
    if x < 0 then "-" + ShowNat(-x) else ShowNat(x)
  }

  function ShowRange(r: Range): string {
    if r.low == r.high then Show(r.low) else Show(r.low) + "-" + Show(r.high)
  }

  function Join(parts: seq<string>): string {
    if parts == [] then "" else if |parts| == 1 then parts[0] else parts[0] + ", " + Join(parts[1..])
  }

  // ----- reading it back -----

  predicate StartsWith(s: string, c: char) {
    s != "" && s[0] == c
  }

  predicate StartsWithDigit(s: string) {
    s != "" && IsDigit(s[0])
  }

  datatype Reading<T> = Reading(value: T, rest: string)

  function ReadDigits(n: nat, s: string): Reading<int>
    decreases |s|
  {
    if StartsWithDigit(s) then ReadDigits(10 * n + DigitValue(s[0]), s[1..]) else Reading(n, s)
  }

  function ReadInt(s: string): (r: Option<Reading<int>>)
    ensures r.Some? ==> |r.value.rest| < |s|
  {
    var negative := StartsWith(s, '-');
    var digits := if negative then s[1..] else s;
    if !StartsWithDigit(digits) then None
    else
      ReadDigitsShorter(0, digits);
      var r := ReadDigits(0, digits);
      Some(Reading(if negative then -r.value else r.value, r.rest))
  }

  lemma {:induction false} ReadDigitsShorter(n: nat, s: string)
    ensures |ReadDigits(n, s).rest| <= |s|
    ensures StartsWithDigit(s) ==> |ReadDigits(n, s).rest| < |s|
    decreases |s|
  {
    if StartsWithDigit(s) {
      ReadDigitsShorter(10 * n + DigitValue(s[0]), s[1..]);
    }
  }

  function ReadRange(s: string): (r: Option<Reading<Range>>)
    ensures r.Some? ==> |r.value.rest| < |s|
  {
    var low := ReadInt(s);
    if low.None? then None
    else if !StartsWith(low.value.rest, '-') then Some(Reading(Range(low.value.value, low.value.value), low.value.rest))
    else
      var high := ReadInt(low.value.rest[1..]);
      if high.None? then None else Some(Reading(Range(low.value.value, high.value.value), high.value.rest))
  }

  /** Ranges separated by a comma and a space. */
  function ReadRanges(s: string): Option<seq<Range>>
    decreases |s|
  {
    var first := ReadRange(s);
    if first.None? then None
    else if first.value.rest == "" then Some([first.value.value])
    else if !(|first.value.rest| >= 2 && first.value.rest[..2] == ", ") then None
    else
      var more := ReadRanges(first.value.rest[2..]);
      if more.None? then None else Some([first.value.value] + more.value)
  }

  lemma {:induction false} ReadShownNat(n: nat, rest: string)
    ensures ReadDigits(0, ShowNat(n) + rest) == ReadDigits(n, rest)
  {
    var last := [Digit(n % 10)] + rest;
    assert last[1..] == rest;
    if n < 10 {
      assert ShowNat(n) + rest == last;
    } else {
      assert ShowNat(n) + rest == ShowNat(n / 10) + last;
      ReadShownNat(n / 10, last);
    }
  }

  lemma ReadSigned(digits: string)
    requires StartsWithDigit(digits)
    ensures var r := ReadDigits(0, digits);
            ReadInt(digits) == Some(r) && ReadInt("-" + digits) == Some(Reading(-r.value, r.rest))
  {
    assert ("-" + digits)[1..] == digits;
  }

  lemma ReadShown(x: int, rest: string)
    requires !StartsWithDigit(rest)
    ensures ReadInt(Show(x) + rest) == Some(Reading(x, rest))
  {
    var n := if x < 0 then -x else x;
    var digits := ShowNat(n) + rest;
    ReadShownNat(n, rest);
    ReadSigned(digits);
    assert x < 0 ==> "-" + ShowNat(n) + rest == "-" + digits;
  }

  lemma ReadShownRange(r: Range, rest: string)
    requires !StartsWithDigit(rest) && !StartsWith(rest, '-')
    ensures ReadRange(ShowRange(r) + rest) == Some(Reading(r, rest))
  {
    if r.low == r.high {
      ReadShown(r.low, rest);
    } else {
      var tail := "-" + (Show(r.high) + rest);
      assert ShowRange(r) + rest == Show(r.low) + tail;
      ReadShown(r.low, tail);
      assert tail[1..] == Show(r.high) + rest;
      ReadShown(r.high, rest);
    }
  }

  lemma ReadLast(r: Range)
    ensures ReadRanges(ShowRange(r)) == Some([r])
  {
    ReadShownRange(r, "");
    assert ShowRange(r) + "" == ShowRange(r);
  }

  lemma ReadMore(s: string, r: Range, rest: string, more: string)
    requires ReadRange(s) == Some(Reading(r, rest)) && rest == ", " + more && ReadRanges(more).Some?
    ensures ReadRanges(s) == Some([r] + ReadRanges(more).value)
  {
    assert rest[..2] == ", " && rest[2..] == more;
  }

  lemma ReadFirst(r: Range, more: string, ranges: seq<Range>)
    requires ReadRanges(more) == Some(ranges)
    ensures ReadRanges(ShowRange(r) + (", " + more)) == Some([r] + ranges)
  {
    var rest := ", " + more;
    ReadShownRange(r, rest);
    ReadMore(ShowRange(r) + rest, r, rest, more);
  }

  /** Reading a text and writing its ranges out gives some numbers, in some order. */
  predicate Tells(text: string, numbers: seq<int>) {
    var ranges := ReadRanges(text);
    ranges.Some? && multiset(WriteOut(ranges.value)) == multiset(numbers)
  }

  /** A single number tells of itself. */
  lemma ShownTells(x: int)
    ensures Tells(Show(x), [x])
  {
    ReadLast(Range(x, x));
    RunOne(x);
    assert WriteOut([]) + [x] == [x];
  }

  /** The text of a list of ranges. */
  function Text(ranges: seq<Range>): string {
    Join(Map(ShowRange, ranges))
  }

  lemma TextCons(ranges: seq<Range>)
    requires ranges != []
    ensures Text(ranges) == if |ranges| == 1 then ShowRange(ranges[0]) else ShowRange(ranges[0]) + (", " + Text(ranges[1..]))
  {
    var parts := Map(ShowRange, ranges);
    assert parts[1..] == Map(ShowRange, ranges[1..]);
    assert |parts| > 1 ==> parts[0] + ", " + Join(parts[1..]) == parts[0] + (", " + Join(parts[1..]));
  }

  lemma ShownDigit(n: nat)
    requires n < 10
    ensures Show(n) == ['0' + n as char]
  {
  }

  lemma ShownPair(a: nat, b: nat)
    requires a < b < 10
    ensures ShowRange(Range(a, b)) == ['0' + a as char, '-', '0' + b as char]
  {
    ShownDigit(a);
    ShownDigit(b);
  }

  /** The example of the documentation. */
  lemma DocumentedText()
    ensures Text([Range(0, 2), Range(4, 6)]) == "0-2, 4-6"
  {
    var a, b := Range(0, 2), Range(4, 6);
    ShownPair(0, 2);
    ShownPair(4, 6);
    assert [a, b][1..] == [b];
    TextCons([a, b]);
    TextCons([b]);
  }

  lemma {:induction false} ReadText(ranges: seq<Range>)
    requires ranges != []
    ensures ReadRanges(Text(ranges)) == Some(ranges)
  {
    TextCons(ranges);
    if |ranges| == 1 {
      ReadLast(ranges[0]);
      assert ranges == [ranges[0]];
    } else {
      ReadText(ranges[1..]);
      ReadFirst(ranges[0], Text(ranges[1..]), ranges[1..]);
      assert ranges == [ranges[0]] + ranges[1..];
    }
  }

  // ----- the code -----

  predicate Leq(a: int, b: int) {
    a <= b
  }

  function SortedInts(s: seq<int>): seq<int> {
    Sort(Identity, Leq, s)
  }

  /** What is printed for a list. */
  function Printed(indices: seq<int>): string
    requires SortedInts(indices) != []
  {
    Text(RangesOf(SortedInts(indices)))
  }

  lemma NextRange(sorted: seq<int>, i: nat, done: seq<Range>, last: Range)
    requires 0 < i < |sorted| && RangesOf(sorted[..i]) == done + [last]
    ensures RangesOf(sorted[..i + 1])
            == if sorted[i] == last.high + 1 then done + [Range(last.low, sorted[i])]
               else done + [last] + [Range(sorted[i], sorted[i])]
  {
    Snoc(sorted[..i], sorted[i]);
    assert sorted[..i + 1] == sorted[..i] + [sorted[i]];
    assert (done + [last])[..|done|] == done;
  }

  /** Fails on an empty list, which has no first index. */
  method FormatIndexRanges(indices: seq<int>) returns (text: Option<string>)
    ensures text.None? <==> indices == []
    ensures text.Some? ==> SortedInts(indices) != [] && text.value == Printed(indices)
  {
    SortedIsPermuted(indices);
    var sorted := SortedInts(indices);
    if sorted == [] {
      return None;
    }
    var ranges: seq<string> := [];
    var start, end := sorted[0], sorted[0];
    ghost var done: seq<Range> := [];
    for i := 1 to |sorted|
      invariant RangesOf(sorted[..i]) == done + [Range(start, end)] && ranges == Map(ShowRange, done)
    {
      var idx := sorted[i];
      NextRange(sorted, i, done, Range(start, end));
      if idx == end + 1 {
        end := idx;
      } else {
        MapSnoc(ShowRange, done, Range(start, end));
        ranges := ranges + [ShowRange(Range(start, end))];
        done := done + [Range(start, end)];
        start, end := idx, idx;
      }
    }
    MapSnoc(ShowRange, done, Range(start, end));
    assert sorted[..|sorted|] == sorted;
    ranges := ranges + [ShowRange(Range(start, end))];
    text := Some(Join(ranges));
  }

  lemma SortedIsPermuted(s: seq<int>)
    ensures multiset(SortedInts(s)) == multiset(s) && |SortedInts(s)| == |s|
    ensures forall i, j | 0 <= i < j < |s| :: SortedInts(s)[i] <= SortedInts(s)[j]
  {
    SortSorts(Identity, Leq, s);
    PermutedLength(SortedInts(s), s);
    var sorted := SortedInts(s);
    forall i, j | 0 <= i < j < |s| ensures sorted[i] <= sorted[j] {
      assert Leq(Identity(sorted[i]), Identity(sorted[j]));
    }
  }

  /** The printed text, read and written out, is the sorted list. No two of its ranges could have been printed as one. */
  lemma PrintedReadsBack(indices: seq<int>)
    requires indices != []
    ensures var sorted := SortedInts(indices);
            && sorted != [] && multiset(sorted) == multiset(indices)
            && var read := ReadRanges(Printed(indices));
               read.Some? && WriteOut(read.value) == sorted && Maximal(read.value)
  {
    SortedIsPermuted(indices);
    var sorted := SortedInts(indices);
    ReadText(RangesOf(sorted));
    RangesWriteOut(sorted);
    RangesMaximal(sorted);
  }

  lemma PrintedTells(indices: seq<int>)
    requires indices != []
    ensures SortedInts(indices) != [] && Tells(Printed(indices), indices)
  {
    PrintedReadsBack(indices);
  }

  lemma SortedAscending(indices: seq<int>)
    requires Distinct(indices)
    ensures Ascending(SortedInts(indices))
  {
    SortedIsPermuted(indices);
    PermutedDistinct(indices, SortedInts(indices));
  }

  /** For distinct indices the printed ranges are disjoint, in order and not adjacent. */
  lemma PrintedApart(indices: seq<int>)
    requires indices != [] && Distinct(indices)
    ensures SortedInts(indices) != []
    ensures var read := ReadRanges(Printed(indices)); read.Some? && Apart(read.value)
  {
    SortedIsPermuted(indices);
    SortedAscending(indices);
    ReadText(RangesOf(SortedInts(indices)));
    RangesApart(SortedInts(indices));
  }
}
