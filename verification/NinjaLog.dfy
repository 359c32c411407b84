/**
Reading a ninja log (vllm/tools/report_build_time_ninja.py, `Target` and `ReadTargets`).

The log may hold several builds one after the other. The reader keeps the last one, which it recognises
by end times going backwards or by a command whose times have changed, and groups its lines by command hash.
Times are exact reals here.
*/
module NinjaLog {
  import opened Searching
  import opened Sorting

  const EPSILON := 0.000002

  class Target {
    const start: real
    const end: real
    var targets: seq<string>
    var weightedDuration: real

    constructor (start: real, end: real)
      ensures this.start == start && this.end == end && targets == [] && weightedDuration == 0.0
    {
      this.start, this.end := start, end;
      targets, weightedDuration := [], 0.0;
    }

    function Duration(): real {
      end - start
    }

    method SetWeightedDuration(weightedDuration: real)
      modifies this`weightedDuration
      ensures this.weightedDuration == weightedDuration
    {
      this.weightedDuration := weightedDuration;
    }

    /** The precondition is the assertion that the source makes before it answers. */
    method WeightedDuration() returns (w: real)
      requires weightedDuration <= Duration() + EPSILON
      ensures w == weightedDuration
    {
      w := weightedDuration;
    }
  }

  /** A log line by its tab-separated fields: not five of them, times that are no integers, or a record in milliseconds. */
  datatype Line = Malformed | BadNumber | Record(entry: Entry)

  datatype Entry = Entry(start: int, end: int, name: string, hash: string)

  datatype ReadResult = Targets(targets: seq<Target>) | UnrecognizedVersion | ValueError

  const HEADER := "# ninja log v5\n"

  function Seconds(milliseconds: int): real {
    milliseconds as real / 1000.0
  }

  function Records(lines: seq<Line>): seq<Entry> {
    if lines == [] then []
    else
      var last := lines[|lines| - 1];
      if last.Record? then Records(lines[..|lines| - 1]) + [last.entry] else Records(lines[..|lines| - 1])
  }

  predicate SameTimes(r: Entry, q: Entry) {
    r.hash == q.hash ==> r.start == q.start && r.end == q.end
  }

  predicate EndsNotAfter(r: Entry, q: Entry) {
    r.end <= q.end
  }

  predicate EndsOrdered(recs: seq<Entry>) {
    forall i, j {:trigger EndsNotAfter(recs[i], recs[j])} | 0 <= i < j < |recs| :: EndsNotAfter(recs[i], recs[j])
  }

  predicate TimesAgree(recs: seq<Entry>) {
    forall i, j {:trigger SameTimes(recs[i], recs[j])} | 0 <= i < |recs| && 0 <= j < |recs| :: SameTimes(recs[i], recs[j])
  }

  /** One build: end times never go back, and a command has one start and one end. */
  predicate OneBuild(recs: seq<Entry>) {
    EndsOrdered(recs) && TimesAgree(recs)
  }

  /** The records of the last build: a record that cannot belong to the build before it starts a new one. */
  function LastBuild(recs: seq<Entry>): seq<Entry> {
    if recs == [] then []
    else
      var last := recs[|recs| - 1];
      var extended := LastBuild(recs[..|recs| - 1]) + [last];
      if OneBuild(extended) then extended else [last]
  }

  function Kept(recs: seq<Entry>, showAll: bool): seq<Entry> {
    if showAll then recs else LastBuild(recs)
  }

  /** Command hashes in order of first appearance. */
  function Hashes(recs: seq<Entry>): seq<string> {
    if recs == [] then []
    else
      var before, hash := Hashes(recs[..|recs| - 1]), recs[|recs| - 1].hash;
      if hash in before then before else before + [hash]
  }

  /** The names logged for one command, in order. */
  function Names(recs: seq<Entry>, hash: string): seq<string> {
    if recs == [] then []
    else if recs[|recs| - 1].hash == hash then Names(recs[..|recs| - 1], hash) + [recs[|recs| - 1].name]
    else Names(recs[..|recs| - 1], hash)
  }

  function FirstOf(recs: seq<Entry>, hash: string): (r: Entry)
    requires hash in Hashes(recs)
    ensures r in recs && r.hash == hash
  {
    if hash in Hashes(recs[..|recs| - 1]) then FirstOf(recs[..|recs| - 1], hash) else recs[|recs| - 1]
  }

  lemma {:induction false} HashesAreDistinct(recs: seq<Entry>)
    ensures Distinct(Hashes(recs))
  {
    if recs != [] {
      HashesAreDistinct(recs[..|recs| - 1]);
    }
  }

  lemma {:induction false} HashesCoverRecords(recs: seq<Entry>, i: nat)
    requires i < |recs|
    ensures recs[i].hash in Hashes(recs)
  {
    if i < |recs| - 1 {
      HashesCoverRecords(recs[..|recs| - 1], i);
    }
  }

  lemma {:induction false} LastBuildIsOneBuild(recs: seq<Entry>)
    ensures OneBuild(LastBuild(recs))
    ensures recs != [] ==> LastBuild(recs) != []
    ensures recs != [] ==> LastBuild(recs)[|LastBuild(recs)| - 1] == recs[|recs| - 1]
  {
    if recs != [] {
      LastBuildIsOneBuild(recs[..|recs| - 1]);
    }
  }

  /** The last build is a suffix of the log. */
  lemma {:induction false} LastBuildIsSuffix(recs: seq<Entry>) returns (earlier: seq<Entry>)
    ensures recs == earlier + LastBuild(recs)
  {
    if recs == [] {
      earlier := [];
    } else {
      var front, last := recs[..|recs| - 1], recs[|recs| - 1];
      earlier := LastBuildIsSuffix(front);
      assert recs == front + [last];
      if !OneBuild(LastBuild(front) + [last]) {
        earlier := front;
      }
    }
  }

  lemma {:induction false} NoNameIsLost(recs: seq<Entry>)
    ensures TotalNames(recs, Hashes(recs)) == |recs|
  {
    if recs != [] {
      var front, last := recs[..|recs| - 1], recs[|recs| - 1];
      NoNameIsLost(front);
      HashesAreDistinct(front);
      TotalAfterRecord(front, recs, Hashes(front));
      if last.hash !in Hashes(front) {
        NamesOfUnknown(front, last.hash);
        assert Hashes(recs)[..|Hashes(front)|] == Hashes(front);
      }
    }
  }

  function TotalNames(recs: seq<Entry>, hashes: seq<string>): nat {
    if hashes == [] then 0
    else TotalNames(recs, hashes[..|hashes| - 1]) + |Names(recs, hashes[|hashes| - 1])|
  }

  lemma {:induction false} TotalAfterRecord(front: seq<Entry>, recs: seq<Entry>, hashes: seq<string>)
    requires recs != [] && front == recs[..|recs| - 1]
    requires Distinct(hashes)
    ensures TotalNames(recs, hashes)
            == TotalNames(front, hashes) + (if recs[|recs| - 1].hash in hashes then 1 else 0)
  {
    if hashes != [] {
      TotalAfterRecord(front, recs, hashes[..|hashes| - 1]);
      assert hashes == hashes[..|hashes| - 1] + [hashes[|hashes| - 1]];
    }
  }

  lemma {:induction false} NamesOfUnknown(recs: seq<Entry>, hash: string)
    requires hash !in Hashes(recs)
    ensures Names(recs, hash) == []
  {
    if recs != [] {
      NamesOfUnknown(recs[..|recs| - 1], hash);
    }
  }

  /** The command of `r` is known, with other times. */
  predicate Changed(build: seq<Entry>, r: Entry) {
    r.hash in Hashes(build) && !SameTimes(FirstOf(build, r.hash), r)
  }

  lemma EndsExtend(build: seq<Entry>, r: Entry)
    requires EndsOrdered(build) && build != []
    ensures EndsOrdered(build + [r]) <==> build[|build| - 1].end <= r.end
  {
    var n, extended := |build|, build + [r];
    assert extended[n] == r && extended[n - 1] == build[n - 1];
    if EndsOrdered(extended) {
      assert EndsNotAfter(extended[n - 1], extended[n]);
    }
    if build[n - 1].end <= r.end {
      forall i, j | 0 <= i < j <= n ensures EndsNotAfter(extended[i], extended[j]) {
        assert i < n - 1 ==> EndsNotAfter(build[i], build[n - 1]);
        assert j < n ==> EndsNotAfter(build[i], build[j]);
      }
    }
  }

  lemma TimesExtend(build: seq<Entry>, r: Entry)
    requires TimesAgree(build)
    ensures TimesAgree(build + [r]) <==> !Changed(build, r)
  {
    var n, extended := |build|, build + [r];
    assert extended[n] == r;
    if r.hash in Hashes(build) {
      var i :| 0 <= i < n && build[i] == FirstOf(build, r.hash);
      if TimesAgree(extended) {
        assert SameTimes(extended[i], extended[n]);
      }
      forall j | 0 <= j < n ensures SameTimes(build[j], build[i]) {}
    } else {
      forall j | 0 <= j < n ensures build[j].hash != r.hash { HashesCoverRecords(build, j); }
    }
    if !Changed(build, r) {
      forall j, k | 0 <= j <= n && 0 <= k <= n ensures SameTimes(extended[j], extended[k]) {
        assert j < n && k < n ==> SameTimes(build[j], build[k]);
      }
    }
  }

  // ----- grouping -----

  datatype Group = Group(hash: string, start: int, end: int, names: seq<string>)

  /** Where the group of a command is, or the number of groups if it has none. */
  function IndexOf(groups: seq<Group>, hash: string): (i: nat)
    ensures i <= |groups| && (i < |groups| ==> groups[i].hash == hash)
    ensures forall j | 0 <= j < i :: groups[j].hash != hash
  {
    FirstWith((g: Group) => g.hash, groups, hash)
  }

  function AddTo(groups: seq<Group>, r: Entry): seq<Group> {
    var i := IndexOf(groups, r.hash);
    if i < |groups| then groups[i := groups[i].(names := groups[i].names + [r.name])]
    else groups + [Group(r.hash, r.start, r.end, [r.name])]
  }

  function Groups(recs: seq<Entry>): seq<Group> {
    if recs == [] then [] else AddTo(Groups(recs[..|recs| - 1]), recs[|recs| - 1])
  }

  /** Group `i` is that of the `i`-th command. */
  predicate IsGroup(recs: seq<Entry>, i: nat) {
    && i < |Hashes(recs)| && i < |Groups(recs)|
    && var h := Hashes(recs)[i];
       Groups(recs)[i] == Group(h, FirstOf(recs, h).start, FirstOf(recs, h).end, Names(recs, h))
  }

  /** A known command keeps its first record, and its names only grow by its own. */
  lemma KnownCommand(recs: seq<Entry>, front: seq<Entry>, last: Entry, h: string)
    requires recs != [] && front == recs[..|recs| - 1] && last == recs[|recs| - 1] && h in Hashes(front)
    ensures h in Hashes(recs) && FirstOf(recs, h) == FirstOf(front, h)
    ensures Names(recs, h) == if last.hash == h then Names(front, h) + [last.name] else Names(front, h)
  {
  }

  lemma GroupAfter(groups: seq<Group>, r: Entry, i: nat)
    requires i < |groups|
    ensures i < |AddTo(groups, r)|
    ensures AddTo(groups, r)[i]
            == if i == IndexOf(groups, r.hash) then groups[i].(names := groups[i].names + [r.name]) else groups[i]
  {
  }

  /** A record of a new command makes a new group. */
  lemma NewGroup(recs: seq<Entry>, front: seq<Entry>, last: Entry)
    requires recs != [] && front == recs[..|recs| - 1] && last == recs[|recs| - 1]
    requires last.hash !in Hashes(front) && |Groups(front)| == |Hashes(front)| == IndexOf(Groups(front), last.hash)
    ensures IsGroup(recs, |Hashes(front)|) && |Groups(recs)| == |Hashes(recs)| == |Hashes(front)| + 1
  {
    NamesOfUnknown(front, last.hash);
  }

  /** One group per command, in order of first appearance, with the times of its first record and all its names. */
  lemma {:induction false} GroupsByCommand(recs: seq<Entry>)
    ensures |Groups(recs)| == |Hashes(recs)|
    ensures forall i {:trigger IsGroup(recs, i)} | 0 <= i < |Groups(recs)| :: IsGroup(recs, i)
  {
    if recs != [] {
      var front, last := recs[..|recs| - 1], recs[|recs| - 1];
      GroupsByCommand(front);
      var before, hashes := Groups(front), Hashes(front);
      HashesAreDistinct(front);
      assert forall i | 0 <= i < |before| :: before[i].hash == hashes[i] by {
        forall i | 0 <= i < |before| ensures before[i].hash == hashes[i] { assert IsGroup(front, i); }
      }
      forall i | 0 <= i < |before| ensures IsGroup(recs, i) {
        assert IsGroup(front, i);
        KnownCommand(recs, front, last, hashes[i]);
        GroupAfter(before, last, i);
      }
      if last.hash !in hashes {
        NewGroup(recs, front, last);
      }
    }
  }

  lemma GroupOf(recs: seq<Entry>, hash: string)
    ensures var i := IndexOf(Groups(recs), hash);
            && (i < |Groups(recs)| <==> hash in Hashes(recs))
            && (hash in Hashes(recs) ==>
                  Groups(recs)[i] == Group(hash, FirstOf(recs, hash).start, FirstOf(recs, hash).end, Names(recs, hash)))
  {
    GroupsByCommand(recs);
    forall j | 0 <= j < |Groups(recs)| ensures Groups(recs)[j].hash == Hashes(recs)[j] { assert IsGroup(recs, j); }
    var i := IndexOf(Groups(recs), hash);
    assert i < |Groups(recs)| ==> IsGroup(recs, i);
  }

  /** A new build starts exactly when one of the two reset tests fires. */
  lemma LastBuildStep(recs: seq<Entry>, r: Entry)
    requires recs != []
    ensures LastBuild(recs + [r])
            == if r.end < recs[|recs| - 1].end || Changed(LastBuild(recs), r) then [r] else LastBuild(recs) + [r]
  {
    assert (recs + [r])[..|recs|] == recs;
    LastBuildIsOneBuild(recs);
    EndsExtend(LastBuild(recs), r);
    TimesExtend(LastBuild(recs), r);
  }

  lemma ChangedByIndex(build: seq<Entry>, r: Entry)
    ensures var groups := Groups(build);
            var i := IndexOf(groups, r.hash);
            Changed(build, r) <==> i < |groups| && (groups[i].start != r.start || groups[i].end != r.end)
  {
    GroupOf(build, r.hash);
  }

  lemma KeptStep(recs: seq<Entry>, r: Entry, showAll: bool)
    ensures var groups := Groups(Kept(recs, showAll));
            var i := IndexOf(groups, r.hash);
            Kept(recs + [r], showAll)
            == if !showAll && recs != []
                  && (r.end < recs[|recs| - 1].end
                      || (i < |groups| && (groups[i].start != r.start || groups[i].end != r.end)))
               then [r] else Kept(recs, showAll) + [r]
  {
    if !showAll && recs != [] {
      LastBuildStep(recs, r);
      ChangedByIndex(LastBuild(recs), r);
    } else if recs == [] {
      assert recs + [r] == [r] && LastBuild([r]) == [r];
    }
  }

  lemma GroupsStep(recs: seq<Entry>, r: Entry)
    ensures Groups(recs + [r]) == AddTo(Groups(recs), r)
  {
    assert (recs + [r])[..|recs|] == recs;
  }

  // ----- the code -----

  ghost predicate Holds(t: Target, g: Group)
    reads t
  {
    t.start == Seconds(g.start) && t.end == Seconds(g.end) && t.targets == g.names && t.weightedDuration == 0.0
  }

  /** Distinct targets, holding the groups one by one. */
  ghost predicate AllHold(targets: seq<Target>, groups: seq<Group>)
    reads targets
  {
    && |targets| == |groups|
    && Distinct(targets)
    && (forall i | 0 <= i < |targets| :: Holds(targets[i], groups[i]))
  }

  /** The dictionary `targets_dict`: its keys in insertion order and, place by place, its values. */
  ghost predicate Dictionary(keys: seq<string>, values: seq<Target>, groups: seq<Group>)
    reads values
  {
    && AllHold(values, groups)
    && |keys| == |groups|
    && (forall i | 0 <= i < |keys| :: keys[i] == groups[i].hash)
  }

  method Lookup(keys: seq<string>, hash: string, ghost groups: seq<Group>) returns (i: nat)
    requires |keys| == |groups| && forall i | 0 <= i < |keys| :: keys[i] == groups[i].hash
    ensures i == IndexOf(groups, hash)
  {
    i := 0;
    while i < |keys| && keys[i] != hash
      invariant i <= |keys| && forall j | 0 <= j < i :: keys[j] != hash
    {
      i := i + 1;
    }
    assert i < |keys| ==> groups[i].hash == hash;
  }

  lemma SecondsOrder(a: int, b: int)
    ensures Seconds(a) < Seconds(b) <==> a < b
    ensures Seconds(a) == Seconds(b) <==> a == b
  {
  }

  /** Appends a name to its command's target, which is made first if there is none. */
  method AddName(keys: seq<string>, values: seq<Target>, record: Entry, ghost groups: seq<Group>)
    returns (keys': seq<string>, values': seq<Target>)
    requires Dictionary(keys, values, groups)
    modifies values
    ensures Dictionary(keys', values', AddTo(groups, record))
    ensures forall i | 0 <= i < |values'| :: values'[i] in values || fresh(values'[i])
  {
    keys', values' := keys, values;
    var i := Lookup(keys, record.hash, groups);
    if i < |keys| {
      values[i].targets := values[i].targets + [record.name];
    } else {
      var target := new Target(Seconds(record.start), Seconds(record.end));
      target.targets := target.targets + [record.name];
      keys', values' := keys + [record.hash], values + [target];
    }
  }

  /** The reader's variables once the records `recs` have been read. */
  ghost predicate Reader(keys: seq<string>, values: seq<Target>, lastEndSeen: real, recs: seq<Entry>, showAll: bool)
    reads values
  {
    && Dictionary(keys, values, Groups(Kept(recs, showAll)))
    && lastEndSeen == if recs == [] then 0.0 else Seconds(recs[|recs| - 1].end)
  }

  /** The command is known, with other times. */
  method TimesChanged(keys: seq<string>, values: seq<Target>, record: Entry, ghost groups: seq<Group>) returns (changed: bool)
    requires Dictionary(keys, values, groups)
    ensures var i := IndexOf(groups, record.hash);
            changed <==> i < |groups| && (groups[i].start != record.start || groups[i].end != record.end)
  {
    changed := false;
    var i := Lookup(keys, record.hash, groups);
    if i < |keys| {
      assert Holds(values[i], groups[i]);
      SecondsOrder(groups[i].start, record.start);
      SecondsOrder(groups[i].end, record.end);
      changed := values[i].start != Seconds(record.start) || values[i].end != Seconds(record.end);
    }
  }

  /** The two reset tests: the dictionary is emptied when the record cannot belong to the build it holds. */
  method ResetForNewBuild(keys: seq<string>, values: seq<Target>, lastEndSeen: real, record: Entry, showAll: bool,
                          ghost recs: seq<Entry>)
    returns (keys': seq<string>, values': seq<Target>, ghost kept: seq<Entry>)
    requires Reader(keys, values, lastEndSeen, recs, showAll)
    ensures Dictionary(keys', values', Groups(kept)) && Kept(recs + [record], showAll) == kept + [record]
    ensures values' == values || values' == []
  {
    kept := Kept(recs, showAll);
    KeptStep(recs, record, showAll);
    keys', values' := keys, values;
    if recs != [] { SecondsOrder(record.end, recs[|recs| - 1].end); }
    if !showAll && Seconds(record.end) < lastEndSeen {
      keys', values', kept := [], [], [];
    }
    var changed := TimesChanged(keys', values', record, Groups(kept));
    if !showAll && changed {
      keys', values', kept := [], [], [];
    }
  }

  /** The body of the loop for a well-formed line. */
  method ReadRecord(keys: seq<string>, values: seq<Target>, lastEndSeen: real, record: Entry, showAll: bool,
                    ghost recs: seq<Entry>)
    returns (keys': seq<string>, values': seq<Target>, lastEndSeen': real)
    requires Reader(keys, values, lastEndSeen, recs, showAll)
    modifies values
    ensures Reader(keys', values', lastEndSeen', recs + [record], showAll)
    ensures forall i | 0 <= i < |values'| :: values'[i] in values || fresh(values'[i])
  {
    ghost var kept;
    keys', values', kept := ResetForNewBuild(keys, values, lastEndSeen, record, showAll, recs);
    lastEndSeen' := Seconds(record.end);
    GroupsStep(kept, record);
    keys', values' := AddName(keys', values', record, Groups(kept));
  }

  lemma RecordsStep(lines: seq<Line>, n: nat)
    requires n < |lines|
    ensures Records(lines[..n + 1])
            == if lines[n].Record? then Records(lines[..n]) + [lines[n].entry] else Records(lines[..n])
  {
    assert lines[..n + 1][..n] == lines[..n];
  }

  /** A thousand times the targets' seconds are the milliseconds in the log. */
  predicate InMilliseconds(targets: seq<Target>, groups: seq<Group>) {
    && |targets| == |groups|
    && forall i | 0 <= i < |targets| ::
         1000.0 * targets[i].start == groups[i].start as real && 1000.0 * targets[i].end == groups[i].end as real
  }

  lemma HeldMilliseconds(targets: seq<Target>, groups: seq<Group>)
    requires AllHold(targets, groups)
    ensures InMilliseconds(targets, groups)
  {
    forall i | 0 <= i < |targets|
      ensures 1000.0 * targets[i].start == groups[i].start as real && 1000.0 * targets[i].end == groups[i].end as real
    {
      assert Holds(targets[i], groups[i]);
    }
  }

  method ReadTargets(header: string, lines: seq<Line>, showAll: bool) returns (r: ReadResult)
    ensures r.UnrecognizedVersion? <==> header != HEADER
    ensures r.ValueError? <==> header == HEADER && BadNumber in lines
    ensures r.Targets? ==>
              var recs := if showAll then Records(lines) else LastBuild(Records(lines));
              fresh(r.targets) && AllHold(r.targets, Groups(recs)) && InMilliseconds(r.targets, Groups(recs))
  {
    if header != HEADER {
      return UnrecognizedVersion;
    }
    var ok, values := ReadLines(lines, showAll);
    if ok { HeldMilliseconds(values, Groups(Kept(Records(lines), showAll))); }
    r := if ok then Targets(values) else ValueError;
  }

  /** The body of the loop: fails on times that are no integers, and skips lines that are malformed. */
  method ReadLine(keys: seq<string>, values: seq<Target>, lastEndSeen: real, line: Line, showAll: bool, ghost recs: seq<Entry>)
    returns (ok: bool, keys': seq<string>, values': seq<Target>, lastEndSeen': real)
    requires Reader(keys, values, lastEndSeen, recs, showAll)
    modifies values
    ensures ok <==> line != BadNumber
    ensures ok ==> Reader(keys', values', lastEndSeen', if line.Record? then recs + [line.entry] else recs, showAll)
    ensures forall i | 0 <= i < |values'| :: values'[i] in values || fresh(values'[i])
  {
    ok, keys', values', lastEndSeen' := true, keys, values, lastEndSeen;
    match line
    case BadNumber => ok := false;
    case Malformed =>
    case Record(entry) => keys', values', lastEndSeen' := ReadRecord(keys, values, lastEndSeen, entry, showAll, recs);
  }

  /** The first `n` lines have integers for times, if they have times at all. */
  predicate NumbersUpTo(lines: seq<Line>, n: nat)
    requires n <= |lines|
  {
    n > 0 ==> lines[n - 1] != BadNumber && NumbersUpTo(lines, n - 1)
  }

  lemma {:induction false} NumbersMean(lines: seq<Line>, n: nat)
    requires n <= |lines|
    ensures NumbersUpTo(lines, n) <==> BadNumber !in lines[..n]
  {
    if n > 0 {
      NumbersMean(lines, n - 1);
      assert lines[..n] == lines[..n - 1] + [lines[n - 1]];
    }
  }

  method ReadLines(lines: seq<Line>, showAll: bool) returns (ok: bool, values: seq<Target>)
    ensures ok <==> BadNumber !in lines
    ensures ok ==> fresh(values) && AllHold(values, Groups(Kept(Records(lines), showAll)))
  {
    var keys: seq<string>, lastEndSeen := [], 0.0;
    ghost var recs := [];
    values := [];
    for n := 0 to |lines|
      invariant NumbersUpTo(lines, n) && recs == Records(lines[..n])
      invariant Reader(keys, values, lastEndSeen, recs, showAll)
      invariant forall i | 0 <= i < |values| :: fresh(values[i])
    {
      ok, keys, values, lastEndSeen := ReadLine(keys, values, lastEndSeen, lines[n], showAll, recs);
      if !ok {
        return false, [];
      }
      RecordsStep(lines, n);
      recs := if lines[n].Record? then recs + [lines[n].entry] else recs;
    }
    assert lines[..|lines|] == lines;
    NumbersMean(lines, |lines|);
    ok := true;
  }
}
