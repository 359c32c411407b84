/**
The printed module tree and what it determines (vllm/vllm/model_inspection.py, `_format_module_tree`).

A printed module has its description, one entry per group of identical numbered children, and one per named child. The
tree can be restored from it up to the order of the numbered children and the spelling of their names.
*/
module PrintedTree {
  import opened IndexRanges
  import opened ModuleTree
  import opened Options
  import opened Sorting

  datatype View = View(info: string, entries: seq<Entry>, named: seq<NamedView>)

  /** One printed group: the text of its indices, their number, and what is printed for all of them. */
  datatype Entry = Entry(text: string, count: nat, view: View)

  datatype NamedView = NamedView(name: string, view: View)

  // ----- sizes, by which printing recurses -----

  function Size(m: Module): nat
    decreases m, 1
  {
    1 + SizeAll(m.children)
  }

  function SizeAll(cs: seq<Child>): nat
    decreases cs, 0
  {
    if cs == [] then 0 else SizeAll(cs[..|cs| - 1]) + Size(cs[|cs| - 1].layer)
  }

  lemma {:induction false} NumberedAreChildren(cs: seq<Child>, number: string -> Option<int>, n: Numbered)
    requires n in NumberedOf(cs, number)
    ensures Size(n.layer) <= SizeAll(cs) && exists k | 0 <= k < |cs| :: cs[k].layer == n.layer
  {
    if n in NumberedOf(cs[..|cs| - 1], number) {
      NumberedAreChildren(cs[..|cs| - 1], number, n);
      var k :| 0 <= k < |cs| - 1 && cs[..|cs| - 1][k].layer == n.layer;
      assert cs[k].layer == n.layer;
    }
  }

  lemma {:induction false} NamedAreChildren(cs: seq<Child>, number: string -> Option<int>, c: Child)
    requires c in NamedOf(cs, number)
    ensures Size(c.layer) <= SizeAll(cs) && c in cs
  {
    if c in NamedOf(cs[..|cs| - 1], number) {
      NamedAreChildren(cs[..|cs| - 1], number, c);
    }
  }

  predicate NumberedBelow(ns: seq<Numbered>, bound: nat) {
    forall i | 0 <= i < |ns| :: Size(ns[i].layer) < bound
  }

  predicate NamedBelow(cs: seq<Child>, bound: nat) {
    forall i | 0 <= i < |cs| :: Size(cs[i].layer) < bound
  }

  predicate GroupsBelow(groups: seq<Group>, bound: nat) {
    forall i | 0 <= i < |groups| :: groups[i].members != [] && NumberedBelow(groups[i].members, bound)
  }

  lemma ChildrenBelow(m: Module, number: string -> Option<int>)
    ensures NumberedBelow(NumberedOf(m.children, number), Size(m)) && NamedBelow(NamedOf(m.children, number), Size(m))
  {
    var ns, cs := NumberedOf(m.children, number), NamedOf(m.children, number);
    forall i | 0 <= i < |ns| ensures Size(ns[i].layer) < Size(m) {
      NumberedAreChildren(m.children, number, ns[i]);
    }
    forall i | 0 <= i < |cs| ensures Size(cs[i].layer) < Size(m) {
      NamedAreChildren(m.children, number, cs[i]);
    }
  }

  // ----- printing -----

  function IndexOf(n: Numbered): int {
    n.index
  }

  function FirstIndex(g: Group): int {
    if g.members == [] then 0 else g.members[0].index
  }

  function SortGroups(groups: seq<Group>): seq<Group> {
    Sort(FirstIndex, Leq, groups)
  }

  /** The text of a group's indices. */
  function Label(g: Group): string
    requires g.members != []
  {
    var indices := Map(IndexOf, g.members);
    if |indices| > 1 && SortedInts(indices) != [] then Printed(indices) else Show(indices[0])
  }

  /** The groups are printed in the order of the indices of their first children. */
  lemma SortedGroups(ns: seq<Numbered>)
    ensures var groups := SortGroups(GroupsOf(ns));
            && multiset(groups) == multiset(GroupsOf(ns))
            && (forall i | 0 <= i < |groups| :: GroupOf(ns, groups[i]))
            && forall i, j | 0 <= i < j < |groups| :: groups[i].members[0].index <= groups[j].members[0].index
  {
    var groups, unsorted := SortGroups(GroupsOf(ns)), GroupsOf(ns);
    SortSorts(FirstIndex, Leq, unsorted);
    GroupsAreAlike(ns);
    forall i | 0 <= i < |groups| ensures GroupOf(ns, groups[i]) {
      PermutedMember(groups, unsorted, groups[i]);
      var k :| 0 <= k < |unsorted| && unsorted[k] == groups[i];
    }
    forall i, j | 0 <= i < j < |groups| ensures groups[i].members[0].index <= groups[j].members[0].index {
      assert Leq(FirstIndex(groups[i]), FirstIndex(groups[j])) && GroupOf(ns, groups[i]) && GroupOf(ns, groups[j]);
    }
  }

  lemma GroupsAreBelow(ns: seq<Numbered>, bound: nat)
    requires NumberedBelow(ns, bound)
    ensures GroupsBelow(SortGroups(GroupsOf(ns)), bound)
  {
    SortedGroups(ns);
    var groups := SortGroups(GroupsOf(ns));
    forall i | 0 <= i < |groups| ensures groups[i].members != [] && NumberedBelow(groups[i].members, bound) {
      assert GroupOf(ns, groups[i]);
      var members := groups[i].members;
      forall j | 0 <= j < |members| ensures Size(members[j].layer) < bound {
        AlikeMembers(ns, groups[i].signature, members[j]);
      }
    }
  }

  function ViewOf(m: Module, number: string -> Option<int>): View
    decreases Size(m), 1, 0
  {
    ChildrenBelow(m, number);
    GroupsAreBelow(NumberedOf(m.children, number), Size(m));
    View(m.info,
         EntriesOf(SortGroups(GroupsOf(NumberedOf(m.children, number))), number, Size(m)),
         NamedViews(NamedOf(m.children, number), number, Size(m)))
  }

  function EntriesOf(groups: seq<Group>, number: string -> Option<int>, bound: nat): (r: seq<Entry>)
    requires GroupsBelow(groups, bound)
    ensures |r| == |groups|
    decreases bound, 0, |groups|
  {
    if groups == [] then []
    else
      var front, last := groups[..|groups| - 1], groups[|groups| - 1];
      EntriesOf(front, number, bound) + [Entry(Label(last), |last.members|, ViewOf(last.members[0].layer, number))]
  }

  function NamedViews(cs: seq<Child>, number: string -> Option<int>, bound: nat): (r: seq<NamedView>)
    requires NamedBelow(cs, bound)
    ensures |r| == |cs|
    decreases bound, 0, |cs|
  {
    if cs == [] then []
    else NamedViews(cs[..|cs| - 1], number, bound) + [NamedView(cs[|cs| - 1].name, ViewOf(cs[|cs| - 1].layer, number))]
  }

  // ----- modules up to the order of their numbered children -----

  datatype Norm = Norm(info: string, numbered: multiset<NumberedNorm>, named: seq<NamedNorm>)
  datatype NumberedNorm = NumberedNorm(index: int, layer: Norm)
  datatype NamedNorm = NamedNorm(name: string, layer: Norm)

  function NormOf(m: Module, number: string -> Option<int>): Norm
    decreases Size(m), 1, 0
  {
    ChildrenBelow(m, number);
    Norm(m.info,
         multiset(NumberedNorms(NumberedOf(m.children, number), number, Size(m))),
         NamedNorms(NamedOf(m.children, number), number, Size(m)))
  }

  function NumberedNorms(ns: seq<Numbered>, number: string -> Option<int>, bound: nat): (r: seq<NumberedNorm>)
    requires NumberedBelow(ns, bound)
    ensures |r| == |ns|
    decreases bound, 0, |ns|
  {
    if ns == [] then []
    else
      NumberedNorms(ns[..|ns| - 1], number, bound) + [NumberedNorm(ns[|ns| - 1].index, NormOf(ns[|ns| - 1].layer, number))]
  }

  function NamedNorms(cs: seq<Child>, number: string -> Option<int>, bound: nat): (r: seq<NamedNorm>)
    requires NamedBelow(cs, bound)
    ensures |r| == |cs|
    decreases bound, 0, |cs|
  {
    if cs == [] then []
    else NamedNorms(cs[..|cs| - 1], number, bound) + [NamedNorm(cs[|cs| - 1].name, NormOf(cs[|cs| - 1].layer, number))]
  }

  lemma {:induction false} NumberedNormAt(ns: seq<Numbered>, number: string -> Option<int>, bound: nat, i: nat)
    requires NumberedBelow(ns, bound) && i < |ns|
    ensures NumberedNorms(ns, number, bound)[i] == NumberedNorm(ns[i].index, NormOf(ns[i].layer, number))
  {
    if i < |ns| - 1 {
      NumberedNormAt(ns[..|ns| - 1], number, bound, i);
    }
  }

  lemma {:induction false} NamedNormAt(cs: seq<Child>, number: string -> Option<int>, bound: nat, i: nat)
    requires NamedBelow(cs, bound) && i < |cs|
    ensures NamedNorms(cs, number, bound)[i] == NamedNorm(cs[i].name, NormOf(cs[i].layer, number))
  {
    if i < |cs| - 1 {
      NamedNormAt(cs[..|cs| - 1], number, bound, i);
    }
  }

  // ----- reading a printed tree -----

  function At(layer: Norm): int -> NumberedNorm {
    (i: int) => NumberedNorm(i, layer)
  }

  function Restore(v: View): Norm
    decreases v, 1
  {
    Norm(v.info, multiset(RestoreEntries(v.entries)), RestoreNamed(v.named))
  }

  /** For every index in the text of an entry, what is printed for all of them. */
  function RestoreEntries(es: seq<Entry>): seq<NumberedNorm>
    decreases es, 0
  {
    if es == [] then []
    else
      var last := es[|es| - 1];
      var ranges := ReadRanges(last.text);
      RestoreEntries(es[..|es| - 1])
      + (if ranges.Some? then Map(At(Restore(last.view)), WriteOut(ranges.value)) else [])
  }

  function RestoreNamed(vs: seq<NamedView>): seq<NamedNorm>
    decreases vs, 0
  {
    if vs == [] then []
    else RestoreNamed(vs[..|vs| - 1]) + [NamedNorm(vs[|vs| - 1].name, Restore(vs[|vs| - 1].view))]
  }

  // ----- what the printed tree determines -----

  lemma LabelTells(g: Group)
    requires g.members != []
    ensures Tells(Label(g), Map(IndexOf, g.members))
  {
    var indices := Map(IndexOf, g.members);
    PrintedTells(indices);
    if |indices| == 1 {
      ShownTells(indices[0]);
      assert indices == [indices[0]];
    }
  }

  predicate Uniform(g: Group) {
    && g.members != [] && Plain(g.members[0].layer)
    && forall j | 0 <= j < |g.members| :: g.members[j].layer == g.members[0].layer
  }

  predicate AllUniform(groups: seq<Group>) {
    forall i | 0 <= i < |groups| :: Uniform(groups[i])
  }

  /** The children of a group are identical. */
  lemma GroupIsUniform(ns: seq<Numbered>, g: Group)
    requires GroupOf(ns, g) && AllPlain(ns)
    ensures Uniform(g)
  {
    AlikeMembers(ns, g.signature, g.members[0]);
    forall j | 0 <= j < |g.members| ensures g.members[j].layer == g.members[0].layer {
      AlikeMembers(ns, g.signature, g.members[j]);
      SignatureDetermines(g.members[j].layer, g.members[0].layer);
    }
  }

  lemma GroupsAreUniform(ns: seq<Numbered>)
    requires AllPlain(ns)
    ensures AllUniform(SortGroups(GroupsOf(ns)))
  {
    SortedGroups(ns);
    var groups := SortGroups(GroupsOf(ns));
    forall i | 0 <= i < |groups| ensures Uniform(groups[i]) {
      assert GroupOf(ns, groups[i]);
      GroupIsUniform(ns, groups[i]);
    }
  }

  lemma PlainNumbered(m: Module, number: string -> Option<int>)
    requires Plain(m)
    ensures AllPlain(NumberedOf(m.children, number)) && forall c | c in NamedOf(m.children, number) :: Plain(c.layer)
  {
    forall n | n in NumberedOf(m.children, number) ensures Plain(n.layer) {
      NumberedAreChildren(m.children, number, n);
      var k :| 0 <= k < |m.children| && m.children[k].layer == n.layer;
      assert Plain(m.children[k].layer);
    }
    forall c | c in NamedOf(m.children, number) ensures Plain(c.layer) {
      NamedAreChildren(m.children, number, c);
      var k :| 0 <= k < |m.children| && m.children[k] == c;
      assert Plain(m.children[k].layer);
    }
  }

  /** An entry tells of every child in its group. */
  lemma EntryTells(g: Group, number: string -> Option<int>, bound: nat)
    requires Uniform(g) && NumberedBelow(g.members, bound)
    ensures var ranges := ReadRanges(Label(g));
            && ranges.Some?
            && multiset(Map(At(NormOf(g.members[0].layer, number)), WriteOut(ranges.value)))
               == multiset(NumberedNorms(g.members, number, bound))
  {
    LabelTells(g);
    var indices, layer := Map(IndexOf, g.members), NormOf(g.members[0].layer, number);
    PermutedMap(At(layer), WriteOut(ReadRanges(Label(g)).value), indices);
    var norms := NumberedNorms(g.members, number, bound);
    forall i | 0 <= i < |norms| ensures norms[i] == Map(At(layer), indices)[i] {
      NumberedNormAt(g.members, number, bound, i);
    }
    assert Map(At(layer), indices) == norms;
  }

  lemma {:induction false} MembersBelow(groups: seq<Group>, bound: nat)
    requires GroupsBelow(groups, bound)
    ensures NumberedBelow(Members(groups), bound)
  {
    if groups != [] {
      MembersBelow(groups[..|groups| - 1], bound);
    }
  }

  function Pair(number: string -> Option<int>): Numbered -> NumberedNorm {
    (n: Numbered) => NumberedNorm(n.index, NormOf(n.layer, number))
  }

  lemma NormsAreMap(ns: seq<Numbered>, number: string -> Option<int>, bound: nat)
    requires NumberedBelow(ns, bound)
    ensures NumberedNorms(ns, number, bound) == Map(Pair(number), ns)
  {
    var norms := NumberedNorms(ns, number, bound);
    forall i | 0 <= i < |ns| ensures norms[i] == Map(Pair(number), ns)[i] {
      NumberedNormAt(ns, number, bound, i);
    }
  }

  lemma NormsAppend(a: seq<Numbered>, b: seq<Numbered>, number: string -> Option<int>, bound: nat)
    requires NumberedBelow(a, bound) && NumberedBelow(b, bound)
    ensures NumberedNorms(a + b, number, bound) == NumberedNorms(a, number, bound) + NumberedNorms(b, number, bound)
  {
    NormsAreMap(a, number, bound);
    NormsAreMap(b, number, bound);
    NormsAreMap(a + b, number, bound);
    MapAppend(Pair(number), a, b);
  }

  lemma RestoreSnoc(groups: seq<Group>, number: string -> Option<int>, bound: nat, front: seq<Group>, last: Group)
    requires groups != [] && front == groups[..|groups| - 1] && last == groups[|groups| - 1]
    requires GroupsBelow(groups, bound) && GroupsBelow(front, bound)
    requires last.members != [] && ReadRanges(Label(last)).Some?
    ensures multiset(RestoreEntries(EntriesOf(groups, number, bound)))
            == multiset(RestoreEntries(EntriesOf(front, number, bound)))
               + multiset(Map(At(Restore(ViewOf(last.members[0].layer, number))), WriteOut(ReadRanges(Label(last)).value)))
  {
    var es := EntriesOf(groups, number, bound);
    assert es[..|es| - 1] == EntriesOf(front, number, bound);
  }

  lemma NormsSnoc(groups: seq<Group>, number: string -> Option<int>, bound: nat, front: seq<Group>, last: Group)
    requires groups != [] && front == groups[..|groups| - 1] && last == groups[|groups| - 1] && GroupsBelow(groups, bound)
    ensures NumberedBelow(Members(groups), bound) && NumberedBelow(Members(front), bound) && NumberedBelow(last.members, bound)
    ensures multiset(NumberedNorms(Members(groups), number, bound))
            == multiset(NumberedNorms(Members(front), number, bound)) + multiset(NumberedNorms(last.members, number, bound))
  {
    MembersBelow(groups, bound);
    MembersBelow(front, bound);
    NormsAppend(Members(front), last.members, number, bound);
  }

  /** The entries tell the same as the children. */
  predicate Tell(groups: seq<Group>, number: string -> Option<int>, bound: nat)
    requires GroupsBelow(groups, bound)
  {
    && NumberedBelow(Members(groups), bound)
    && multiset(RestoreEntries(EntriesOf(groups, number, bound)))
       == multiset(NumberedNorms(Members(groups), number, bound))
  }

  lemma TellOneMore(groups: seq<Group>, number: string -> Option<int>, bound: nat, front: seq<Group>, last: Group)
    requires groups != [] && front == groups[..|groups| - 1] && last == groups[|groups| - 1]
    requires GroupsBelow(groups, bound) && GroupsBelow(front, bound) && Uniform(last)
    requires Restore(ViewOf(last.members[0].layer, number)) == NormOf(last.members[0].layer, number)
    requires Tell(front, number, bound)
    ensures Tell(groups, number, bound)
  {
    NormsSnoc(groups, number, bound, front, last);
    EntryTells(last, number, bound);
    RestoreSnoc(groups, number, bound, front, last);
  }

  lemma TellNothing(number: string -> Option<int>, bound: nat)
    ensures GroupsBelow([], bound) && Tell([], number, bound)
  {
  }

  lemma FrontAndLast(groups: seq<Group>, bound: nat) returns (front: seq<Group>, last: Group, layer: Module)
    requires groups != [] && GroupsBelow(groups, bound) && AllUniform(groups)
    ensures front == groups[..|groups| - 1] && last == groups[|groups| - 1]
    ensures GroupsBelow(front, bound) && AllUniform(front) && Uniform(last)
    ensures last.members != [] && layer == last.members[0].layer && Plain(layer) && Size(layer) < bound
  {
    front, last := groups[..|groups| - 1], groups[|groups| - 1];
    layer := last.members[0].layer;
  }

  lemma {:induction false} EntriesTell(groups: seq<Group>, number: string -> Option<int>, bound: nat)
    requires GroupsBelow(groups, bound) && AllUniform(groups)
    ensures Tell(groups, number, bound)
    decreases bound, 0, |groups|
  {
    if groups == [] {
      TellNothing(number, bound);
    } else {
      var front, last, layer := FrontAndLast(groups, bound);
      EntriesTell(front, number, bound);
      Restored(layer, number);
      TellOneMore(groups, number, bound, front, last);
    }
  }

  lemma {:induction false} NamedTell(cs: seq<Child>, number: string -> Option<int>, bound: nat)
    requires NamedBelow(cs, bound) && forall c | c in cs :: Plain(c.layer)
    ensures RestoreNamed(NamedViews(cs, number, bound)) == NamedNorms(cs, number, bound)
    decreases bound, 0, |cs|
  {
    if cs != [] {
      var front, last := cs[..|cs| - 1], cs[|cs| - 1];
      NamedTell(front, number, bound);
      Restored(last.layer, number);
      var vs := NamedViews(cs, number, bound);
      assert vs[..|vs| - 1] == NamedViews(front, number, bound);
    }
  }

  lemma PermutedNorms(a: seq<Numbered>, b: seq<Numbered>, number: string -> Option<int>, bound: nat)
    requires multiset(a) == multiset(b) && NumberedBelow(a, bound) && NumberedBelow(b, bound)
    ensures multiset(NumberedNorms(a, number, bound)) == multiset(NumberedNorms(b, number, bound))
  {
    NormsAreMap(a, number, bound);
    NormsAreMap(b, number, bound);
    PermutedMap(Pair(number), a, b);
  }

  /**
  Reading a printed module gives the module up to the order of its numbered children and the spelling of their
  names, through all levels: collapsing identical layers loses nothing.
  */
  lemma {:induction false} Restored(m: Module, number: string -> Option<int>)
    requires Plain(m)
    ensures Restore(ViewOf(m, number)) == NormOf(m, number)
    decreases Size(m), 1, 0
  {
    var ns, bound := NumberedOf(m.children, number), Size(m);
    var groups := SortGroups(GroupsOf(ns));
    ChildrenBelow(m, number);
    GroupsAreBelow(ns, bound);
    PlainNumbered(m, number);
    GroupsAreUniform(ns);
    EntriesTell(groups, number, bound);
    NamedTell(NamedOf(m.children, number), number, bound);
    SortedGroups(ns);
    PermutedMembers(groups, GroupsOf(ns));
    GroupsConserve(ns);
    PermutedNorms(Members(groups), ns, number, bound);
  }

  // ----- when it determines the module itself -----

  /** The children as PyTorch's containers keep them: numbered ones first, in order and under the names of their numbers. */
  function Spelled(ns: seq<Numbered>): seq<Child> {
    if ns == [] then [] else Spelled(ns[..|ns| - 1]) + [Child(Show(ns[|ns| - 1].index), ns[|ns| - 1].layer)]
  }

  predicate IndicesAscend(ns: seq<Numbered>) {
    forall i, j | 0 <= i < j < |ns| :: ns[i].index < ns[j].index
  }

  predicate Tidy(m: Module, number: string -> Option<int>) {
    && IndicesAscend(NumberedOf(m.children, number))
    && m.children == Spelled(NumberedOf(m.children, number)) + NamedOf(m.children, number)
    && forall i | 0 <= i < |m.children| :: Tidy(m.children[i].layer, number)
  }

  lemma TidyChildren(m: Module, number: string -> Option<int>)
    requires Tidy(m, number)
    ensures AllTidy(NumberedOf(m.children, number), number) && AllNamedTidy(NamedOf(m.children, number), number)
  {
    forall n | n in NumberedOf(m.children, number) ensures Tidy(n.layer, number) {
      NumberedAreChildren(m.children, number, n);
      var k :| 0 <= k < |m.children| && m.children[k].layer == n.layer;
      assert Tidy(m.children[k].layer, number);
    }
    forall c | c in NamedOf(m.children, number) ensures Tidy(c.layer, number) {
      NamedAreChildren(m.children, number, c);
      var k :| 0 <= k < |m.children| && m.children[k] == c;
      assert Tidy(m.children[k].layer, number);
    }
  }

  predicate NormsAscend(s: seq<NumberedNorm>) {
    forall i, j | 0 <= i < j < |s| :: s[i].index < s[j].index
  }

  /** In ascending order, the same children are the same list. */
  lemma {:induction false} AscendingUnique(a: seq<NumberedNorm>, b: seq<NumberedNorm>)
    requires multiset(a) == multiset(b) && NormsAscend(a) && NormsAscend(b)
    ensures a == b
  {
    PermutedLength(a, b);
    if a != [] {
      var n := |a| - 1;
      PermutedMember(a, b, a[n]);
      PermutedMember(a, b, b[n]);
      assert a[n] == b[n];
      FrontPermuted(a, b, n);
      AscendingUnique(a[..n], b[..n]);
      assert a == a[..n] + [a[n]] && b == b[..n] + [b[n]];
    }
  }

  lemma NormsStillAscend(ns: seq<Numbered>, number: string -> Option<int>, bound: nat)
    requires NumberedBelow(ns, bound) && IndicesAscend(ns)
    ensures NormsAscend(NumberedNorms(ns, number, bound))
  {
    var norms := NumberedNorms(ns, number, bound);
    forall i | 0 <= i < |ns| ensures norms[i].index == ns[i].index {
      NumberedNormAt(ns, number, bound, i);
    }
  }

  predicate AllTidy(ns: seq<Numbered>, number: string -> Option<int>) {
    forall i | 0 <= i < |ns| :: Tidy(ns[i].layer, number)
  }

  predicate AllNamedTidy(cs: seq<Child>, number: string -> Option<int>) {
    forall i | 0 <= i < |cs| :: Tidy(cs[i].layer, number)
  }

  lemma {:induction false} SameNumbered(ns: seq<Numbered>, ms: seq<Numbered>, number: string -> Option<int>, a: nat, b: nat)
    requires NumberedBelow(ns, a) && NumberedBelow(ms, b) && AllTidy(ns, number) && AllTidy(ms, number)
    requires NumberedNorms(ns, number, a) == NumberedNorms(ms, number, b)
    ensures ns == ms
    decreases a, 0
  {
    forall i | 0 <= i < |ns| ensures |ns| == |ms| && ns[i] == ms[i] {
      assert |NumberedNorms(ns, number, a)| == |NumberedNorms(ms, number, b)|;
      NumberedNormAt(ns, number, a, i);
      NumberedNormAt(ms, number, b, i);
      TidyIsNormal(ns[i].layer, ms[i].layer, number);
    }
  }

  lemma {:induction false} SameNamed(cs: seq<Child>, ds: seq<Child>, number: string -> Option<int>, a: nat, b: nat)
    requires NamedBelow(cs, a) && NamedBelow(ds, b) && AllNamedTidy(cs, number) && AllNamedTidy(ds, number)
    requires NamedNorms(cs, number, a) == NamedNorms(ds, number, b)
    ensures cs == ds
    decreases a, 0
  {
    forall i | 0 <= i < |cs| ensures |cs| == |ds| && cs[i] == ds[i] {
      assert |NamedNorms(cs, number, a)| == |NamedNorms(ds, number, b)|;
      NamedNormAt(cs, number, a, i);
      NamedNormAt(ds, number, b, i);
      TidyIsNormal(cs[i].layer, ds[i].layer, number);
    }
  }

  /** Tidy modules are equal if they are so up to the order of their numbered children. */
  lemma {:induction false} TidyIsNormal(a: Module, b: Module, number: string -> Option<int>)
    requires Tidy(a, number) && Tidy(b, number) && NormOf(a, number) == NormOf(b, number)
    ensures a == b
    decreases Size(a), 1
  {
    ChildrenBelow(a, number);
    ChildrenBelow(b, number);
    TidyChildren(a, number);
    TidyChildren(b, number);
    var ns, ms := NumberedOf(a.children, number), NumberedOf(b.children, number);
    NormsStillAscend(ns, number, Size(a));
    NormsStillAscend(ms, number, Size(b));
    AscendingUnique(NumberedNorms(ns, number, Size(a)), NumberedNorms(ms, number, Size(b)));
    SameNumbered(ns, ms, number, Size(a), Size(b));
    SameNamed(NamedOf(a.children, number), NamedOf(b.children, number), number, Size(a), Size(b));
  }

  /** Tidy modules are printed alike exactly if they are equal. */
  lemma PrintDeterminesTidy(a: Module, b: Module, number: string -> Option<int>)
    requires Plain(a) && Plain(b) && Tidy(a, number) && Tidy(b, number)
    ensures ViewOf(a, number) == ViewOf(b, number) <==> a == b
  {
    if ViewOf(a, number) == ViewOf(b, number) {
      Restored(a, number);
      Restored(b, number);
      TidyIsNormal(a, b, number);
    }
  }

  // ----- what is lost -----

  lemma {:induction false} SameEntries(groups: seq<Group>, number: string -> Option<int>, a: nat, b: nat)
    requires GroupsBelow(groups, a) && GroupsBelow(groups, b)
    ensures EntriesOf(groups, number, a) == EntriesOf(groups, number, b)
  {
    if groups != [] {
      SameEntries(groups[..|groups| - 1], number, a, b);
    }
  }

  lemma {:induction false} SameNamedViews(cs: seq<Child>, number: string -> Option<int>, a: nat, b: nat)
    requires NamedBelow(cs, a) && NamedBelow(cs, b)
    ensures NamedViews(cs, number, a) == NamedViews(cs, number, b)
  {
    if cs != [] {
      SameNamedViews(cs[..|cs| - 1], number, a, b);
    }
  }

  /** The print depends on the numbered children, in their order, and on the named ones, in theirs; how they mix is lost. */
  lemma MixIsLost(a: Module, b: Module, number: string -> Option<int>)
    requires a.info == b.info && NumberedOf(a.children, number) == NumberedOf(b.children, number)
    requires NamedOf(a.children, number) == NamedOf(b.children, number)
    ensures ViewOf(a, number) == ViewOf(b, number)
  {
    var ns, cs := NumberedOf(a.children, number), NamedOf(a.children, number);
    ChildrenBelow(a, number);
    ChildrenBelow(b, number);
    GroupsAreBelow(ns, Size(a));
    GroupsAreBelow(ns, Size(b));
    SameEntries(SortGroups(GroupsOf(ns)), number, Size(a), Size(b));
    SameNamedViews(cs, number, Size(a), Size(b));
  }

  /** Two modules that differ only in where the numbered child stands: they are printed alike. */
  lemma OrderIsLost(number: string -> Option<int>, info: string, x: Module, y: Module)
    requires number("0") == Some(0) && number("norm") == None
    ensures var a, b := Module(info, [Child("norm", x), Child("0", y)]), Module(info, [Child("0", y), Child("norm", x)]);
            a != b && ViewOf(a, number) == ViewOf(b, number)
  {
    var norm, zero := Child("norm", x), Child("0", y);
    TwoChildren(norm, zero, number);
    TwoChildren(zero, norm, number);
    assert [norm, zero][0] != [zero, norm][0];
    MixIsLost(Module(info, [norm, zero]), Module(info, [zero, norm]), number);
  }

  lemma TwoChildren(c: Child, d: Child, number: string -> Option<int>)
    ensures NumberedOf([c, d], number) == NumberedOf([c], number) + NumberedOf([d], number)
    ensures NamedOf([c, d], number) == NamedOf([c], number) + NamedOf([d], number)
    ensures number(c.name).None? ==> NumberedOf([c], number) == [] && NamedOf([c], number) == [c]
    ensures number(c.name).Some? ==> NumberedOf([c], number) == [Numbered(number(c.name).value, c.layer)] && NamedOf([c], number) == []
  {
    assert [c, d][..1] == [c] && [c][..0] == [] && [d][..0] == [];
    assert NumberedOf([], number) == [] && NamedOf([], number) == [];
  }

  lemma OneGroup(g: Group, number: string -> Option<int>, bound: nat)
    requires GroupsBelow([g], bound)
    ensures SortGroups([g]) == [g]
    ensures EntriesOf([g], number, bound) == [Entry(Label(g), |g.members|, ViewOf(g.members[0].layer, number))]
  {
    assert [g][..0] == [] && [g][0] == g && Sort(FirstIndex, Leq, []) == [];
    assert EntriesOf([], number, bound) == [];
  }

  lemma CollapsedView(number: string -> Option<int>, info: string, a: Module, b: Module) returns (text: string)
    requires number("0") == Some(0) && number("1") == Some(1) && Signature(a) == Signature(b)
    ensures text == Label(Group(Signature(a), [Numbered(0, a), Numbered(1, b)]))
    ensures ViewOf(Module(info, [Child("0", a), Child("1", b)]), number)
            == View(info, [Entry(text, 2, ViewOf(a, number))], [])
  {
    var m := Module(info, [Child("0", a), Child("1", b)]);
    var ns := [Numbered(0, a), Numbered(1, b)];
    var g := Group(Signature(a), ns);
    TwoChildren(Child("0", a), Child("1", b), number);
    TwoChildren(Child("1", b), Child("0", a), number);
    assert NumberedOf(m.children, number) == ns && NamedOf(m.children, number) == [];
    CollidingChildrenCollapse(a, b);
    ChildrenBelow(m, number);
    assert GroupsBelow([g], Size(m));
    OneGroup(g, number, Size(m));
    text := Label(g);
  }

  /** Of two different layers with one signature the second is lost: the module is printed as if it were the first again. */
  lemma CollisionIsLost(number: string -> Option<int>, info: string, a: Module, b: Module)
    requires number("0") == Some(0) && number("1") == Some(1) && Signature(a) == Signature(b)
    ensures ViewOf(Module(info, [Child("0", a), Child("1", b)]), number)
            == ViewOf(Module(info, [Child("0", a), Child("1", a)]), number)
  {
    var x := CollapsedView(number, info, a, b);
    var y := CollapsedView(number, info, a, a);
    assert Map(IndexOf, [Numbered(0, a), Numbered(1, b)]) == Map(IndexOf, [Numbered(0, a), Numbered(1, a)]);
  }

  // ----- counts -----

  function Counts(es: seq<Entry>): nat {
    if es == [] then 0 else Counts(es[..|es| - 1]) + es[|es| - 1].count
  }

  lemma {:induction false} CountsOfGroups(groups: seq<Group>, number: string -> Option<int>, bound: nat)
    requires GroupsBelow(groups, bound)
    ensures Counts(EntriesOf(groups, number, bound)) == |Members(groups)|
  {
    if groups != [] {
      CountsOfGroups(groups[..|groups| - 1], number, bound);
      var es := EntriesOf(groups, number, bound);
      assert es[..|es| - 1] == EntriesOf(groups[..|groups| - 1], number, bound);
    }
  }

  lemma {:induction false} EntryAt(groups: seq<Group>, number: string -> Option<int>, bound: nat, i: nat)
    requires GroupsBelow(groups, bound) && i < |groups|
    ensures EntriesOf(groups, number, bound)[i]
            == Entry(Label(groups[i]), |groups[i].members|, ViewOf(groups[i].members[0].layer, number))
  {
    if i < |groups| - 1 {
      EntryAt(groups[..|groups| - 1], number, bound, i);
    }
  }

  /** Every printed count is the number of indices in its text. */
  lemma CountIsOfText(m: Module, number: string -> Option<int>, i: nat)
    requires i < |ViewOf(m, number).entries|
    ensures var e := ViewOf(m, number).entries[i];
            var ranges := ReadRanges(e.text);
            ranges.Some? && e.count == |WriteOut(ranges.value)|
  {
    var ns := NumberedOf(m.children, number);
    var groups := SortGroups(GroupsOf(ns));
    ChildrenBelow(m, number);
    GroupsAreBelow(ns, Size(m));
    EntryAt(groups, number, Size(m), i);
    LabelTells(groups[i]);
    PermutedLength(WriteOut(ReadRanges(Label(groups[i])).value), Map(IndexOf, groups[i].members));
  }

  /** The printed counts add up to the number of numbered children. */
  lemma CountsAddUp(m: Module, number: string -> Option<int>)
    ensures Counts(ViewOf(m, number).entries) == |NumberedOf(m.children, number)|
  {
    var ns := NumberedOf(m.children, number);
    var groups := SortGroups(GroupsOf(ns));
    ChildrenBelow(m, number);
    GroupsAreBelow(ns, Size(m));
    CountsOfGroups(groups, number, Size(m));
    SortedGroups(ns);
    PermutedMembers(groups, GroupsOf(ns));
    GroupsConserve(ns);
    PermutedLength(Members(groups), ns);
  }

  // ----- the code -----

  /** Tells numbered children from named ones. */
  method SplitChildren(cs: seq<Child>, number: string -> Option<int>) returns (numbered: seq<Numbered>, named: seq<Child>)
    ensures numbered == NumberedOf(cs, number) && named == NamedOf(cs, number)
  {
    numbered, named := [], [];
    for k := 0 to |cs|
      invariant numbered == NumberedOf(cs[..k], number) && named == NamedOf(cs[..k], number)
    {
      assert cs[..k + 1][..k] == cs[..k];
      var n := number(cs[k].name);
      if n.Some? {
        numbered := numbered + [Numbered(n.value, cs[k].layer)];
      } else {
        named := named + [cs[k]];
      }
    }
    assert cs[..|cs|] == cs;
  }

  /** Collects the groups by signature. */
  method GroupNumbered(numbered: seq<Numbered>) returns (groups: seq<Group>)
    ensures groups == GroupsOf(numbered)
  {
    groups := [];
    for k := 0 to |numbered|
      invariant groups == GroupsOf(numbered[..k])
    {
      assert numbered[..k + 1][..k] == numbered[..k];
      groups := Add(groups, numbered[k]);
    }
    assert numbered[..|numbered|] == numbered;
  }

  method FormatLabel(g: Group) returns (text: string)
    requires g.members != []
    ensures text == Label(g)
  {
    var indices := Map(IndexOf, g.members);
    text := Show(indices[0]);
    if |indices| > 1 {
      var printed := FormatIndexRanges(indices);
      text := printed.value;
    }
  }

  method FormatGroups(groups: seq<Group>, number: string -> Option<int>, bound: nat) returns (entries: seq<Entry>)
    requires GroupsBelow(groups, bound)
    ensures entries == EntriesOf(groups, number, bound)
    decreases bound, 0
  {
    entries := [];
    for k := 0 to |groups|
      invariant entries == EntriesOf(groups[..k], number, bound)
    {
      assert groups[..k + 1][..k] == groups[..k];
      var members := groups[k].members;
      var view := FormatModuleTree(members[0].layer, number);
      var text := FormatLabel(groups[k]);
      entries := entries + [Entry(text, |members|, view)];
    }
    assert groups[..|groups|] == groups;
  }

  method FormatNamed(cs: seq<Child>, number: string -> Option<int>, bound: nat) returns (views: seq<NamedView>)
    requires NamedBelow(cs, bound)
    ensures views == NamedViews(cs, number, bound)
    decreases bound, 0
  {
    views := [];
    for k := 0 to |cs|
      invariant views == NamedViews(cs[..k], number, bound)
    {
      assert cs[..k + 1][..k] == cs[..k];
      var view := FormatModuleTree(cs[k].layer, number);
      views := views + [NamedView(cs[k].name, view)];
    }
    assert cs[..|cs|] == cs;
  }

  /** Prints a module: its description, its groups by their first index, and its named children. */
  method FormatModuleTree(m: Module, number: string -> Option<int>) returns (view: View)
    ensures view == ViewOf(m, number)
    ensures Plain(m) ==> Restore(view) == NormOf(m, number)
    decreases Size(m), 1
  {
    ChildrenBelow(m, number);
    GroupsAreBelow(NumberedOf(m.children, number), Size(m));
    var numbered, named := SplitChildren(m.children, number);
    var groups := GroupNumbered(numbered);
    var entries := FormatGroups(SortGroups(groups), number, Size(m));
    var views := FormatNamed(named, number, Size(m));
    view := View(m.info, entries, views);
    if Plain(m) { Restored(m, number); }
  }
}
