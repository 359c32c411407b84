/**
Signatures of modules and the groups they form (vllm/vllm/model_inspection.py, `_get_module_info`,
`_get_child_signature` and the dictionary in `_format_module_tree`).

A signature is a text with one line per submodule. The theorem is that it determines the module if no child's name
contains a colon, and that it does not otherwise. Modules are trees; a submodule that two parents share, which PyTorch
lists only once, is not modelled.
*/
module ModuleTree {
  import opened Options
  import opened Searching
  import opened Sorting

  datatype Module = Module(info: string, children: seq<Child>)
  datatype Child = Child(name: string, layer: Module)

  // ----- texts joined by a separator -----

  predicate Without(s: string, c: char) {
    forall i | 0 <= i < |s| :: s[i] != c
  }

  function JoinBy(sep: char, parts: seq<string>): string {
    if parts == [] then "" else if |parts| == 1 then parts[0] else parts[0] + ([sep] + JoinBy(sep, parts[1..]))
  }

  /** A text ends, or goes on with the separator. */
  predicate EndsOr(s: string, c: char) {
    s == "" || s[0] == c
  }

  lemma NotLonger(c: char, x: string, s: string, y: string, t: string)
    requires Without(y, c) && EndsOr(s, c) && x + s == y + t
    ensures |y| <= |x|
  {
    if s != "" {
      assert (y + t)[|x|] == c;
      assert forall i | 0 <= i < |y| :: (y + t)[i] == y[i];
    }
  }

  /** The part before the first separator is unique. */
  lemma SplitUnique(c: char, x: string, s: string, y: string, t: string)
    requires Without(x, c) && Without(y, c) && EndsOr(s, c) && EndsOr(t, c) && x + s == y + t
    ensures x == y && s == t
  {
    NotLonger(c, x, s, y, t);
    NotLonger(c, y, t, x, s);
    var z := x + s;
    assert x == z[..|x|] && y == z[..|x|] && s == z[|x|..] && t == z[|x|..];
  }

  predicate AllWithout(parts: seq<string>, c: char) {
    forall i | 0 <= i < |parts| :: Without(parts[i], c)
  }

  lemma JoinCons(sep: char, parts: seq<string>) returns (rest: string)
    requires parts != []
    ensures JoinBy(sep, parts) == parts[0] + rest && EndsOr(rest, sep)
    ensures if |parts| == 1 then rest == "" else rest == [sep] + JoinBy(sep, parts[1..])
  {
    rest := if |parts| == 1 then "" else [sep] + JoinBy(sep, parts[1..]);
    assert parts[0] + "" == parts[0];
  }

  /** Parts without the separator can be told apart in the joined text. */
  lemma {:induction false} JoinInjective(sep: char, a: seq<string>, b: seq<string>)
    requires a != [] && b != [] && AllWithout(a, sep) && AllWithout(b, sep) && JoinBy(sep, a) == JoinBy(sep, b)
    ensures a == b
  {
    var s := JoinCons(sep, a);
    var t := JoinCons(sep, b);
    SplitUnique(sep, a[0], s, b[0], t);
    if |a| > 1 && |b| > 1 {
      assert JoinBy(sep, a[1..]) == s[1..] && JoinBy(sep, b[1..]) == t[1..];
      JoinInjective(sep, a[1..], b[1..]);
      assert a == [a[0]] + a[1..] && b == [b[0]] + b[1..];
    } else {
      assert a == [a[0]] && b == [b[0]];
    }
  }

  lemma {:induction false} JoinWithout(sep: char, parts: seq<string>, c: char)
    requires c != sep && AllWithout(parts, c)
    ensures Without(JoinBy(sep, parts), c)
  {
    if |parts| > 1 {
      JoinWithout(sep, parts[1..], c);
    }
  }

  // ----- signatures -----

  /** One line of a signature: the path of a submodule and its description. */
  datatype Line = Line(path: seq<string>, info: string)

  function Lines(m: Module, path: seq<string>): (r: seq<Line>)
    ensures r != [] && r[0] == Line(path, m.info)
    decreases m, 1
  {
    [Line(path, m.info)] + ChildLines(m.children, path)
  }

  function ChildLines(cs: seq<Child>, path: seq<string>): (r: seq<Line>)
    ensures cs != [] ==> r != [] && r[0].path == path + [cs[0].name]
    decreases cs, 0
  {
    if cs == [] then [] else Lines(cs[0].layer, path + [cs[0].name]) + ChildLines(cs[1..], path)
  }

  /** What follows the lines below a path. */
  predicate Outside(rest: seq<Line>, depth: nat) {
    rest == [] || |rest[0].path| <= depth
  }

  lemma {:induction false} SameTree(a: Module, b: Module, path: seq<string>, x: seq<Line>, y: seq<Line>)
    requires Outside(x, |path|) && Outside(y, |path|) && Lines(a, path) + x == Lines(b, path) + y
    ensures a == b && x == y
    decreases a, 1
  {
    var p, q := ChildLines(a.children, path) + x, ChildLines(b.children, path) + y;
    assert Lines(a, path) + x == [Line(path, a.info)] + p;
    assert Lines(b, path) + y == [Line(path, b.info)] + q;
    assert p == ([Line(path, a.info)] + p)[1..] == ([Line(path, b.info)] + q)[1..] == q;
    assert ([Line(path, a.info)] + p)[0] == ([Line(path, b.info)] + q)[0];
    SameTrees(a.children, b.children, path, x, y);
  }

  lemma {:induction false} SameTrees(a: seq<Child>, b: seq<Child>, path: seq<string>, x: seq<Line>, y: seq<Line>)
    requires Outside(x, |path|) && Outside(y, |path|) && ChildLines(a, path) + x == ChildLines(b, path) + y
    ensures a == b && x == y
    decreases a, 0
  {
    FirstLine(a, path, x);
    FirstLine(b, path, y);
    if a != [] && b != [] {
      var inner := path + [a[0].name];
      assert a[0].name == inner[|path|] == (path + [b[0].name])[|path|] == b[0].name;
      var p := Unroll(a, path, x, inner);
      var q := Unroll(b, path, y, inner);
      SameTree(a[0].layer, b[0].layer, inner, p, q);
      SameTrees(a[1..], b[1..], path, x, y);
      SameParts(a, b);
    }
  }

  /** The lines of children begin one level deeper than what follows them. */
  lemma FirstLine(cs: seq<Child>, path: seq<string>, x: seq<Line>)
    ensures cs == [] ==> ChildLines(cs, path) + x == x
    ensures cs != [] ==> ChildLines(cs, path) + x != [] && (ChildLines(cs, path) + x)[0].path == path + [cs[0].name]
  {
  }

  lemma Unroll(cs: seq<Child>, path: seq<string>, x: seq<Line>, inner: seq<string>) returns (rest: seq<Line>)
    requires cs != [] && inner == path + [cs[0].name] && Outside(x, |path|)
    ensures rest == ChildLines(cs[1..], path) + x && Outside(rest, |inner|)
    ensures ChildLines(cs, path) + x == Lines(cs[0].layer, inner) + rest
  {
    rest := ChildLines(cs[1..], path) + x;
    OutsideNext(cs[1..], path, x, inner);
  }

  lemma SameParts(a: seq<Child>, b: seq<Child>)
    requires a != [] && b != [] && a[0] == b[0] && a[1..] == b[1..]
    ensures a == b
  {
    assert a == [a[0]] + a[1..] && b == [b[0]] + b[1..];
  }

  lemma OutsideNext(cs: seq<Child>, path: seq<string>, x: seq<Line>, inner: seq<string>)
    requires Outside(x, |path|) && |inner| == |path| + 1
    ensures Outside(ChildLines(cs, path) + x, |inner|)
  {
    if cs != [] {
      assert (ChildLines(cs, path) + x)[0] == ChildLines(cs, path)[0];
    } else {
      assert ChildLines(cs, path) + x == x;
    }
  }

  // ----- signatures as texts -----

  function LineText(line: Line): string {
    JoinBy('.', line.path) + (":" + line.info)
  }

  function Signature(m: Module): string {
    JoinBy('\n', Map(LineText, Lines(m, [])))
  }

  /** A name without separators. PyTorch itself refuses empty names and dots; colons are for the caller to avoid. */
  predicate PlainName(s: string) {
    s != "" && Without(s, '.') && Without(s, ':')
  }

  /** Plain names throughout; descriptions never contain line breaks (see `InfoIsPlain`). */
  predicate Plain(m: Module) {
    && Without(m.info, '\n')
    && forall i | 0 <= i < |m.children| :: PlainName(m.children[i].name) && Plain(m.children[i].layer)
  }

  predicate PlainPath(path: seq<string>) {
    forall i | 0 <= i < |path| :: PlainName(path[i])
  }

  predicate PlainLine(line: Line) {
    PlainPath(line.path) && Without(line.info, '\n')
  }

  predicate PlainLines(lines: seq<Line>) {
    forall i | 0 <= i < |lines| :: PlainLine(lines[i])
  }

  predicate PlainChildren(cs: seq<Child>) {
    forall i | 0 <= i < |cs| :: PlainName(cs[i].name) && Plain(cs[i].layer)
  }

  lemma {:induction false} LinesArePlain(m: Module, path: seq<string>)
    requires Plain(m) && PlainPath(path)
    ensures PlainLines(Lines(m, path))
    decreases m, 1
  {
    ChildLinesArePlain(m.children, path);
  }

  lemma {:induction false} ChildLinesArePlain(cs: seq<Child>, path: seq<string>)
    requires PlainChildren(cs) && PlainPath(path)
    ensures PlainLines(ChildLines(cs, path))
    decreases cs, 0
  {
    if cs != [] {
      LinesArePlain(cs[0].layer, path + [cs[0].name]);
      ChildLinesArePlain(cs[1..], path);
    }
  }

  lemma PathText(path: seq<string>)
    requires PlainPath(path)
    ensures Without(JoinBy('.', path), ':')
    ensures JoinBy('.', path) == "" <==> path == []
  {
    JoinWithout('.', path, ':');
  }

  lemma PathInjective(p: seq<string>, q: seq<string>)
    requires PlainPath(p) && PlainPath(q) && JoinBy('.', p) == JoinBy('.', q)
    ensures p == q
  {
    PathText(p);
    PathText(q);
    if p != [] && q != [] {
      JoinInjective('.', p, q);
    }
  }

  /** The first line ends where its description does: at the first line break behind the first colon. */
  lemma FirstLineUnique(a: Line, s: string, b: Line, t: string)
    requires PlainLine(a) && PlainLine(b) && EndsOr(s, '\n') && EndsOr(t, '\n') && LineText(a) + s == LineText(b) + t
    ensures a == b && s == t
  {
    var p, q, x, y := JoinBy('.', a.path), JoinBy('.', b.path), a.info + s, b.info + t;
    PathText(a.path);
    PathText(b.path);
    assert LineText(a) + s == p + (":" + x) && LineText(b) + t == q + (":" + y);
    SplitUnique(':', p, ":" + x, q, ":" + y);
    assert x == (":" + x)[1..] && y == (":" + y)[1..];
    SplitUnique('\n', a.info, s, b.info, t);
    PathInjective(a.path, b.path);
  }

  lemma TextCons(lines: seq<Line>) returns (rest: string)
    requires lines != []
    ensures JoinBy('\n', Map(LineText, lines)) == LineText(lines[0]) + rest && EndsOr(rest, '\n')
    ensures if |lines| == 1 then rest == "" else rest == "\n" + JoinBy('\n', Map(LineText, lines[1..]))
  {
    rest := JoinCons('\n', Map(LineText, lines));
    assert Map(LineText, lines)[1..] == Map(LineText, lines[1..]);
  }

  /** The text determines the lines. */
  lemma {:induction false} LinesInjective(p: seq<Line>, q: seq<Line>)
    requires p != [] && q != [] && PlainLines(p) && PlainLines(q)
    requires JoinBy('\n', Map(LineText, p)) == JoinBy('\n', Map(LineText, q))
    ensures p == q
  {
    var s := TextCons(p);
    var t := TextCons(q);
    FirstLineUnique(p[0], s, q[0], t);
    assert p == [p[0]] + p[1..] && q == [q[0]] + q[1..];
    if |p| > 1 && |q| > 1 {
      assert JoinBy('\n', Map(LineText, p[1..])) == s[1..] && JoinBy('\n', Map(LineText, q[1..])) == t[1..];
      LinesInjective(p[1..], q[1..]);
    }
  }

  /** The signatures of plain modules are equal exactly if the modules are: structure, names and descriptions. */
  lemma SignatureDetermines(a: Module, b: Module)
    requires Plain(a) && Plain(b)
    ensures Signature(a) == Signature(b) <==> a == b
  {
    if Signature(a) == Signature(b) {
      LinesArePlain(a, []);
      LinesArePlain(b, []);
      LinesInjective(Lines(a, []), Lines(b, []));
      assert Lines(a, []) + [] == Lines(b, []) + [];
      SameTree(a, b, [], [], []);
    }
  }

  function Leaf(info: string): Module {
    Module(info, [])
  }

  lemma LeafLine(info: string, path: seq<string>)
    ensures Lines(Leaf(info), path) == [Line(path, info)]
  {
    assert ChildLines([], path) == [];
  }

  lemma OneChild(info: string, name: string, i: string)
    ensures Lines(Module(info, [Child(name, Leaf(i))]), []) == [Line([], info), Line([name], i)]
  {
    var cs := [Child(name, Leaf(i))];
    LeafLine(i, [name]);
    assert cs[1..] == [] && [] + [name] == [name] && ChildLines([], []) == [];
    assert ChildLines(cs, []) == [Line([name], i)];
  }

  lemma TwoLeaves(info: string, u: string, i: string, w: string, j: string)
    ensures Lines(Module(info, [Child(u, Leaf(i)), Child(w, Leaf(j))]), [])
            == [Line([], info), Line([u], i), Line([w], j)]
  {
    var cs, ds := [Child(u, Leaf(i)), Child(w, Leaf(j))], [Child(w, Leaf(j))];
    LeafLine(i, [u]);
    LeafLine(j, [w]);
    assert cs[1..] == ds && ds[1..] == [] && [] + [u] == [u] && [] + [w] == [w] && ChildLines([], []) == [];
    assert ChildLines(ds, []) == [Line([w], j)];
    assert ChildLines(cs, []) == [Line([u], i), Line([w], j)];
  }

  lemma JoinThree(a: string, b: string, c: string)
    ensures JoinBy('\n', [a, b]) == a + ("\n" + b)
    ensures JoinBy('\n', [a, b, c]) == a + ("\n" + (b + ("\n" + c)))
  {
    assert [a, b][1..] == [b] && [a, b, c][1..] == [b, c] && [b, c][1..] == [c];
    assert JoinBy('\n', [b]) == b && JoinBy('\n', [c]) == c;
  }

  lemma TextOfName(name: string, info: string)
    ensures LineText(Line([], info)) == ":" + info && LineText(Line([name], info)) == name + (":" + info)
  {
    assert JoinBy('.', []) == "" && JoinBy('.', [name]) == name;
    assert "" + (":" + info) == ":" + info;
  }

  lemma SignatureOfOne(info: string, name: string, i: string)
    ensures Signature(Module(info, [Child(name, Leaf(i))])) == ":" + info + ("\n" + (name + (":" + i)))
  {
    var lines := [Line([], info), Line([name], i)];
    OneChild(info, name, i);
    TextOfName(name, info);
    TextOfName(name, i);
    assert Map(LineText, lines) == [":" + info, name + (":" + i)];
    JoinThree(":" + info, name + (":" + i), "");
  }

  lemma SignatureOfTwo(info: string, u: string, i: string, w: string, j: string)
    ensures Signature(Module(info, [Child(u, Leaf(i)), Child(w, Leaf(j))]))
            == ":" + info + ("\n" + (u + (":" + i) + ("\n" + (w + (":" + j)))))
  {
    var lines := [Line([], info), Line([u], i), Line([w], j)];
    TwoLeaves(info, u, i, w, j);
    TextOfName(u, info);
    TextOfName(u, i);
    TextOfName(w, j);
    assert Map(LineText, lines) == [":" + info, u + (":" + i), w + (":" + j)];
    JoinThree(":" + info, u + (":" + i), w + (":" + j));
  }

  lemma Regroup(x: string, w: string, z: string)
    ensures x + "\n" + w + z == x + ("\n" + (w + z))
  {
  }

  /**
  With a colon and a line break in a name, which PyTorch accepts, different modules have the same signature: one
  child whose name looks like a whole line and the beginning of the next, and two children.
  */
  lemma NamesCollide(info: string, u: string, i: string, w: string, j: string)
    ensures var a, b := Module(info, [Child(u + (":" + i) + "\n" + w, Leaf(j))]),
                        Module(info, [Child(u, Leaf(i)), Child(w, Leaf(j))]);
            a != b && Signature(a) == Signature(b)
  {
    var x := u + (":" + i);
    var a, b := Module(info, [Child(x + "\n" + w, Leaf(j))]), Module(info, [Child(u, Leaf(i)), Child(w, Leaf(j))]);
    assert |a.children| != |b.children|;
    SignatureOfOne(info, x + "\n" + w, j);
    SignatureOfTwo(info, u, i, w, j);
    Regroup(x, w, ":" + j);
  }

  // ----- descriptions -----

  /** `replace` of a character by nothing. */
  function Strip(s: string, c: char): (r: string)
    ensures Without(r, c)
  {
    if s == "" then ""
    else if s[|s| - 1] == c then Strip(s[..|s| - 1], c)
    else Strip(s[..|s| - 1], c) + [s[|s| - 1]]
  }

  /** The class, its quantisation method if it is worth printing, and its own description without line breaks. */
  function ModuleInfo(className: string, quant: Option<string>, extraRepr: string): string {
    className + "(" + (if quant.Some? then "quant=" + quant.value + ", " else "") + Strip(extraRepr, '\n') + ")"
  }

  /** Descriptions contain no line breaks, because names of classes do not. */
  lemma InfoIsPlain(className: string, quant: Option<string>, extraRepr: string)
    requires Without(className, '\n') && (quant.Some? ==> Without(quant.value, '\n'))
    ensures Without(ModuleInfo(className, quant, extraRepr), '\n')
  {
  }

  // ----- grouping -----

  datatype Numbered = Numbered(index: int, layer: Module)

  datatype Group = Group(signature: string, members: seq<Numbered>)

  /** The children whose name reads as an integer. */
  function NumberedOf(cs: seq<Child>, number: string -> Option<int>): seq<Numbered> {
    if cs == [] then []
    else
      var before, last := NumberedOf(cs[..|cs| - 1], number), cs[|cs| - 1];
      var n := number(last.name);
      if n.Some? then before + [Numbered(n.value, last.layer)] else before
  }

  /** The others. */
  function NamedOf(cs: seq<Child>, number: string -> Option<int>): seq<Child> {
    if cs == [] then []
    else
      var before, last := NamedOf(cs[..|cs| - 1], number), cs[|cs| - 1];
      if number(last.name).Some? then before else before + [last]
  }

  /** Where the group with a signature is, or the number of groups. */
  function Find(groups: seq<Group>, signature: string): (i: nat)
    ensures i <= |groups| && (i < |groups| ==> groups[i].signature == signature)
    ensures forall j | 0 <= j < i :: groups[j].signature != signature
  {
    FirstWith((g: Group) => g.signature, groups, signature)
  }

  function Add(groups: seq<Group>, n: Numbered): seq<Group> {
    var signature := Signature(n.layer);
    var i := Find(groups, signature);
    if i < |groups| then groups[i := Group(signature, groups[i].members + [n])]
    else groups + [Group(signature, [n])]
  }

  function GroupsOf(ns: seq<Numbered>): seq<Group> {
    if ns == [] then [] else Add(GroupsOf(ns[..|ns| - 1]), ns[|ns| - 1])
  }

  /** The children with a signature, in order. */
  function Alike(ns: seq<Numbered>, signature: string): seq<Numbered> {
    if ns == [] then []
    else
      var before, last := Alike(ns[..|ns| - 1], signature), ns[|ns| - 1];
      if Signature(last.layer) == signature then before + [last] else before
  }

  predicate GroupOf(ns: seq<Numbered>, g: Group) {
    g.members == Alike(ns, g.signature) != []
  }

  predicate Grouping(ns: seq<Numbered>, groups: seq<Group>) {
    && (forall i | 0 <= i < |groups| :: GroupOf(ns, groups[i]))
    && (forall i, j | 0 <= i < j < |groups| :: groups[i].signature != groups[j].signature)
  }

  lemma {:induction false} NoneAlike(ns: seq<Numbered>, signature: string)
    ensures Find(GroupsOf(ns), signature) == |GroupsOf(ns)| ==> Alike(ns, signature) == []
  {
    if ns != [] {
      NoneAlike(ns[..|ns| - 1], signature);
      FindAfterAdd(GroupsOf(ns[..|ns| - 1]), ns[|ns| - 1], signature);
    }
  }

  lemma FindAfterAdd(groups: seq<Group>, n: Numbered, signature: string)
    ensures var after := Add(groups, n);
            Find(after, signature) == |after|
            ==> Find(groups, signature) == |groups| && Signature(n.layer) != signature
  {
    var after, i := Add(groups, n), Find(groups, signature);
    assert i < |groups| ==> after[i].signature == signature;
    assert Signature(n.layer) == signature && i == |groups| ==> after[i].signature == signature;
  }

  /** Each group holds exactly the children with its signature, in order; there is one group per signature. */
  lemma {:induction false} GroupsAreAlike(ns: seq<Numbered>)
    ensures Grouping(ns, GroupsOf(ns))
  {
    if ns != [] {
      var front, n := ns[..|ns| - 1], ns[|ns| - 1];
      GroupsAreAlike(front);
      NoneAlike(front, Signature(n.layer));
      assert ns == front + [n];
      GroupingStep(front, n);
    }
  }

  lemma GroupingStep(front: seq<Numbered>, n: Numbered)
    requires Grouping(front, GroupsOf(front))
    requires var s := Signature(n.layer); Find(GroupsOf(front), s) == |GroupsOf(front)| ==> Alike(front, s) == []
    ensures Grouping(front + [n], Add(GroupsOf(front), n))
  {
    assert (front + [n])[..|front|] == front;
    var groups, after := GroupsOf(front), Add(GroupsOf(front), n);
    forall i | 0 <= i < |after| ensures GroupOf(front + [n], after[i]) {
      assert i < |groups| ==> GroupOf(front, groups[i]);
    }
  }

  // ----- nothing is lost, nothing is doubled -----

  function Members(groups: seq<Group>): seq<Numbered> {
    if groups == [] then [] else Members(groups[..|groups| - 1]) + groups[|groups| - 1].members
  }

  lemma MembersSnoc(front: seq<Group>, last: Group)
    ensures multiset(Members(front + [last])) == multiset(Members(front)) + multiset(last.members)
  {
    assert (front + [last])[..|front|] == front;
  }

  lemma MembersWithoutSnoc(front: seq<Group>, without: seq<Group>, g: Group, last: Group)
    requires multiset(Members(front)) == multiset(Members(without)) + multiset(g.members)
    ensures multiset(Members(front + [last])) == multiset(Members(without + [last])) + multiset(g.members)
  {
    MembersSnoc(front, last);
    MembersSnoc(without, last);
    SumAround(multiset(Members(without)), multiset(g.members), multiset(last.members));
  }

  lemma {:induction false} MembersWithout(groups: seq<Group>, j: nat)
    requires j < |groups|
    ensures multiset(Members(groups)) == multiset(Members(groups[..j] + groups[j + 1..])) + multiset(groups[j].members)
  {
    var m := |groups| - 1;
    var front, last := groups[..m], groups[m];
    assert groups == front + [last];
    if j == m {
      MembersSnoc(front, last);
      assert groups[..j] + groups[j + 1..] == front;
    } else {
      var without := front[..j] + front[j + 1..];
      MembersWithout(front, j);
      MembersWithoutSnoc(front, without, groups[j], last);
      assert groups[..j] + groups[j + 1..] == without + [last];
    }
  }

  lemma SumAround<T>(a: multiset<T>, b: multiset<T>, c: multiset<T>)
    ensures a + b + c == a + c + b
  {
  }

  lemma MembersAfterUpdate(groups: seq<Group>, i: nat, g: Group, n: Numbered)
    requires i < |groups| && g.members == groups[i].members + [n]
    ensures multiset(Members(groups[i := g])) == multiset(Members(groups)) + multiset{n}
  {
    var after := groups[i := g];
    MembersWithout(groups, i);
    MembersWithout(after, i);
    assert after[..i] + after[i + 1..] == groups[..i] + groups[i + 1..];
    assert multiset(g.members) == multiset(groups[i].members) + multiset{n};
  }

  lemma MembersAfterAdd(groups: seq<Group>, n: Numbered)
    ensures multiset(Members(Add(groups, n))) == multiset(Members(groups)) + multiset{n}
  {
    var signature := Signature(n.layer);
    var i := Find(groups, signature);
    if i < |groups| {
      MembersAfterUpdate(groups, i, Group(signature, groups[i].members + [n]), n);
    } else {
      assert (groups + [Group(signature, [n])])[..|groups|] == groups;
    }
  }

  /** Every numbered child is in exactly one group. */
  lemma {:induction false} GroupsConserve(ns: seq<Numbered>)
    ensures multiset(Members(GroupsOf(ns))) == multiset(ns)
  {
    if ns != [] {
      var front, n := ns[..|ns| - 1], ns[|ns| - 1];
      assert ns == front + [n];
      GroupsConserve(front);
      MembersAfterAdd(GroupsOf(front), n);
    }
  }

  lemma {:induction false} PermutedMembers(a: seq<Group>, b: seq<Group>)
    requires multiset(a) == multiset(b)
    ensures multiset(Members(a)) == multiset(Members(b))
  {
    PermutedLength(a, b);
    if a != [] {
      var n := |a| - 1;
      PermutedMember(a, b, a[n]);
      var j :| 0 <= j < |b| && b[j] == a[n];
      RemoveAt(a, n);
      RemoveAt(b, j);
      assert a[..n] + a[n + 1..] == a[..n];
      PermutedMembers(a[..n], b[..j] + b[j + 1..]);
      MembersWithout(b, j);
    }
  }

  lemma {:induction false} AlikeMembers(ns: seq<Numbered>, signature: string, n: Numbered)
    ensures n in Alike(ns, signature) <==> n in ns && Signature(n.layer) == signature
  {
    if ns != [] {
      AlikeMembers(ns[..|ns| - 1], signature, n);
      assert ns == ns[..|ns| - 1] + [ns[|ns| - 1]];
    }
  }

  /** A child is in a group exactly if it is identical to the group's representative. */
  lemma GroupsAreIdentical(ns: seq<Numbered>, i: nat, n: Numbered)
    requires i < |GroupsOf(ns)| && n in ns && AllPlain(ns)
    ensures var g := GroupsOf(ns)[i]; g.members != [] && (n in g.members <==> n.layer == g.members[0].layer)
  {
    GroupsAreAlike(ns);
    var g := GroupsOf(ns)[i];
    assert GroupOf(ns, g);
    AlikeMembers(ns, g.signature, n);
    AlikeMembers(ns, g.signature, g.members[0]);
    SignatureDetermines(n.layer, g.members[0].layer);
  }

  predicate AllPlain(ns: seq<Numbered>) {
    forall n | n in ns :: Plain(n.layer)
  }

  /** Two different children with one signature fall into one group, and the second is printed as if it were the first. */
  lemma CollidingChildrenCollapse(a: Module, b: Module)
    requires Signature(a) == Signature(b)
    ensures var ns := [Numbered(0, a), Numbered(1, b)]; GroupsOf(ns) == [Group(Signature(a), ns)]
  {
    var ns := [Numbered(0, a), Numbered(1, b)];
    assert ns[..1] == [Numbered(0, a)] && ns[..1][..0] == [];
    var one := Group(Signature(a), [Numbered(0, a)]);
    assert GroupsOf(ns[..1]) == [one];
    assert Find([one], Signature(b)) == 0 by { assert [one][0].signature == Signature(b); }
    assert one.members + [Numbered(1, b)] == ns;
    assert [one][0 := Group(Signature(b), ns)] == [Group(Signature(b), ns)];
  }
}
