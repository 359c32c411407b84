/**
Signatures of Inductor graph partitions (vllm/vllm/env_override.py,
`get_graph_partition_signature_patched`).

A compiled graph is a list of partitions, each a list of scheduler nodes. A backward pass gives every
partition a signature: the buffers it takes, the buffers it hands back, and which inputs it frees.
The theorem of this module is that calling the partitions one after the other, each seeing nothing but
what its signature lists, computes the graph outputs of the whole node list.
*/
module GraphPartition {
  import opened Options


  type Name = string

  /** A scheduler node: the buffers it defines, the names it reads and writes, and those it is the last to use. */
  datatype Node = Node(outputs: set<Name>, readNames: set<Name>, writeNames: set<Name>, lastUsage: set<Name>)

  type Partition = seq<Node>

  /** What `is_none_layout` looks at in a scheduler buffer. */
  datatype Buffer = Buffer(noneLayout: bool, mutationOutput: bool)

  datatype Scheduler = Scheduler(
    graphInputs: set<Name>,
    constants: set<Name>,
    graphOutputs: set<Name>,
    nameToNode: set<Name>,
    nameToBuf: map<Name, Buffer>,
    mutationRealName: map<Name, Name>)

  datatype Signature = Signature(
    inputs: set<Name>,
    outputs: set<Name>,
    deallocation: map<Name, bool>,
    skipCudagraph: bool,
    constants: set<Name>)

  // ----- the backward pass -----

  /** The storage a name stands for: a mutation output stands for the buffer it mutates. */
  function Real(s: Scheduler, x: Name): Name {
    if x in s.mutationRealName then s.mutationRealName[x] else x
  }

  /** Real names are fully resolved: the buffer behind a mutation is never itself a mutation output. */
  predicate Resolved(s: Scheduler) {
    forall x | x in s.mutationRealName :: s.mutationRealName[x] !in s.mutationRealName
  }

  /** `is_none_layout`: buffers with no allocation of their own. */
  predicate IsNoneLayout(s: Scheduler, x: Name)
    requires Resolved(s)
    decreases if x in s.mutationRealName then 1 else 0
  {
    if x !in s.nameToBuf then false
    else if s.nameToBuf[x].noneLayout then
      if s.nameToBuf[x].mutationOutput && x in s.mutationRealName
      then IsNoneLayout(s, s.mutationRealName[x])
      else true
    else false
  }

  function RealImage(s: Scheduler, names: set<Name>): set<Name> {
    set x | x in names :: Real(s, x)
  }

  function Outputs(p: Partition): set<Name> {
    set i, x | 0 <= i < |p| && x in p[i].outputs :: x
  }

  function ReadWrites(p: Partition): set<Name> {
    set i, x | 0 <= i < |p| && x in p[i].readNames + p[i].writeNames :: x
  }

  function Freed(p: Partition): set<Name> {
    set i, x | 0 <= i < |p| && x in p[i].lastUsage :: x
  }

  /** Names a partition takes from outside, constants included. */
  function PartitionInputs(s: Scheduler, p: Partition): set<Name>
    requires Resolved(s)
  {
    RealImage(s, (set x | x in ReadWrites(p) && !IsNoneLayout(s, x)) - Outputs(p))
    + (Freed(p) - Outputs(p)) * s.nameToNode
  }

  /** Names a partition hands back, given the names still unmet after it. */
  function Returned(s: Scheduler, p: Partition, unmet: set<Name>): set<Name>
    requires Resolved(s)
  {
    RealImage(s, Outputs(p) * unmet + (PartitionInputs(s, p) * s.nameToNode - Freed(p)))
  }

  function SignatureOf(s: Scheduler, p: Partition, skip: bool, unmet: set<Name>): Signature
    requires Resolved(s)
  {
    var inputs := PartitionInputs(s, p);
    Signature(
      inputs * s.nameToNode,
      set x | x in Returned(s, p, unmet) && !IsNoneLayout(s, x),
      map x | x in inputs * s.nameToNode :: x in Freed(p),
      skip,
      inputs * s.constants)
  }

  /** The names that have to be available before `ps` runs, as the backward pass accumulates them. */
  function Unmet(s: Scheduler, ps: seq<Partition>): set<Name>
    requires Resolved(s)
  {
    if ps == [] then s.graphOutputs
    else
      var after := Unmet(s, ps[1..]);
      PartitionInputs(s, ps[0]) + (after - Returned(s, ps[0], after))
  }

  function Signatures(s: Scheduler, ps: seq<Partition>, skips: seq<bool>): (sigs: seq<Signature>)
    requires Resolved(s) && |ps| == |skips|
    ensures |sigs| == |ps|
  {
    if ps == [] then []
    else [SignatureOf(s, ps[0], skips[0], Unmet(s, ps[1..]))] + Signatures(s, ps[1..], skips[1..])
  }

  // ----- what running means -----

  /** `kernel(node, name, inputs)` is the content node leaves in storage `name` when its operands hold `inputs`. */
  type Kernel<!V> = (Node, Name, map<Name, V>) -> V

  function Restrict<V>(store: map<Name, V>, names: set<Name>): map<Name, V> {
    map x | x in names && x in store :: store[x]
  }

  /** Storage a node may look at. */
  function Accessed(s: Scheduler, n: Node): set<Name>
    requires Resolved(s)
  {
    RealImage(s, set x | x in n.readNames + n.writeNames && x !in n.outputs && !IsNoneLayout(s, x))
  }

  /** Storage a node writes: its own buffers and the buffers it mutates. */
  function Stored(s: Scheduler, n: Node): set<Name>
    requires Resolved(s)
  {
    RealImage(s, set x | x in n.outputs && !IsNoneLayout(s, x))
  }

  function RunNode<V>(s: Scheduler, kernel: Kernel<V>, n: Node, store: map<Name, V>): map<Name, V>
    requires Resolved(s)
  {
    store + map r | r in Stored(s, n) :: kernel(n, r, Restrict(store, Accessed(s, n)))
  }

  /** The reference: every node in order over one store, nothing ever freed. */
  function RunNodes<V>(s: Scheduler, kernel: Kernel<V>, p: Partition, store: map<Name, V>): map<Name, V>
    requires Resolved(s)
  {
    if p == [] then store else RunNodes(s, kernel, p[1..], RunNode(s, kernel, p[0], store))
  }

  function Flatten(ps: seq<Partition>): Partition {
    if ps == [] then [] else ps[0] + Flatten(ps[1..])
  }

  /** One partition function: it sees only its arguments, and drops a buffer after its last use. */
  function RunLocal<V>(s: Scheduler, kernel: Kernel<V>, p: Partition, store: map<Name, V>): Option<map<Name, V>>
    requires Resolved(s)
  {
    if p == [] then Some(store)
    else if !(Accessed(s, p[0]) <= store.Keys) then None
    else RunLocal(s, kernel, p[1..], RunNode(s, kernel, p[0], store) - (p[0].lastUsage - s.constants))
  }

  /**
  The caller: pass each partition what its signature asks for, drop the inputs it deallocates, keep what
  it returns. `None` means that a buffer was asked for that does not exist.
  */
  function RunPartitions<V>(s: Scheduler, kernel: Kernel<V>, ps: seq<Partition>, sigs: seq<Signature>,
                            outer: map<Name, V>): Option<map<Name, V>>
    requires Resolved(s) && |ps| == |sigs|
  {
    if ps == [] then Some(outer)
    else
      var sig := sigs[0];
      if !(sig.inputs + sig.constants <= outer.Keys) then None
      else
        match RunLocal(s, kernel, ps[0], Restrict(outer, sig.inputs + sig.constants))
        case None => None
        case Some(local) =>
          if !(sig.outputs <= local.Keys) then None
          else RunPartitions(s, kernel, ps[1..], sigs[1..], After(sig, outer, local))
  }

  /** The caller's store once a partition has returned. */
  function After<V>(sig: Signature, outer: map<Name, V>, local: map<Name, V>): map<Name, V> {
    outer - (set x | x in sig.deallocation && sig.deallocation[x]) + Restrict(local, sig.outputs)
  }

  // ----- what the scheduler guarantees -----

  /** Storage a node depends on, changes or frees. */
  function Touches(s: Scheduler, n: Node): set<Name> {
    RealImage(s, n.readNames + n.writeNames + n.outputs) + n.lastUsage
  }

  function TouchedBy(s: Scheduler, p: Partition): set<Name> {
    set i, x | 0 <= i < |p| && x in Touches(s, p[i]) :: x
  }

  /** Storage that some partition of `ps` touches or that holds a graph output. */
  function Needed(s: Scheduler, ps: seq<Partition>): set<Name> {
    if ps == [] then RealImage(s, s.graphOutputs) else TouchedBy(s, ps[0]) + Needed(s, ps[1..])
  }

  predicate SchedulerOk(s: Scheduler) {
    && Resolved(s)
    && s.nameToNode !! s.constants
    && s.graphInputs <= s.nameToNode
    && (s.graphInputs + s.constants) !! s.nameToBuf.Keys
    // Mutation outputs are scheduler buffers, and count as unallocated exactly if the buffer they mutate does.
    && (forall x | x in s.mutationRealName ::
          x in s.nameToBuf && IsNoneLayout(s, x) == IsNoneLayout(s, s.mutationRealName[x]))
  }

  /** A node in topological order: `defined` are the names that exist before it. */
  predicate NodeOk(s: Scheduler, defined: set<Name>, n: Node) {
    && n.outputs !! defined
    && n.outputs <= s.nameToNode
    && n.readNames <= defined
    && n.writeNames <= defined + n.outputs
    // A mutated buffer is among the names the node reads or writes, and is not a constant.
    && (forall o | o in n.outputs && o in s.mutationRealName ::
          && Real(s, o) !in s.constants
          && exists x :: x in (n.readNames + n.writeNames) * defined && Real(s, x) == Real(s, o))
    && n.lastUsage <= defined + n.outputs
    && (forall x | x in n.lastUsage :: x !in s.mutationRealName)
  }

  /** What `n` frees, the later node `m` does not touch. */
  predicate DoneWith(s: Scheduler, n: Node, m: Node) {
    n.lastUsage !! Touches(s, m)
  }

  predicate PartitionOk(s: Scheduler, defined: set<Name>, p: Partition) {
    && (forall i {:trigger NodeOk(s, defined + Outputs(p[..i]), p[i])} | 0 <= i < |p| ::
          NodeOk(s, defined + Outputs(p[..i]), p[i]))
    && (forall i, j {:trigger DoneWith(s, p[i], p[j])} | 0 <= i < j < |p| :: DoneWith(s, p[i], p[j]))
  }

  predicate PartitionsOk(s: Scheduler, defined: set<Name>, ps: seq<Partition>)
    decreases ps
  {
    if ps == [] then s.graphOutputs <= defined
    else
      && PartitionOk(s, defined, ps[0])
      && Freed(ps[0]) !! Needed(s, ps[1..])
      && PartitionsOk(s, defined + Outputs(ps[0]), ps[1..])
  }

  /** No partition frees an unallocated buffer of an earlier partition. */
  predicate FreesOnlyAllocated(s: Scheduler, ps: seq<Partition>)
    requires Resolved(s)
  {
    forall k, x | 0 <= k < |ps| && x in Freed(ps[k]) :: IsNoneLayout(s, x) ==> x in Outputs(ps[k])
  }

  // ----- facts about names -----

  lemma NoneLayoutIsReal(s: Scheduler, x: Name)
    requires SchedulerOk(s)
    ensures Real(s, x) !in s.mutationRealName
    ensures IsNoneLayout(s, x) == IsNoneLayout(s, Real(s, x))
  {
  }

  predicate Closed(s: Scheduler, defined: set<Name>) {
    && defined <= s.nameToNode + s.constants
    && s.constants <= defined
    && forall x | x in defined :: Real(s, x) in defined
  }

  lemma OutputsExtend(p: Partition, i: nat)
    requires i < |p|
    ensures Outputs(p[..i + 1]) == Outputs(p[..i]) + p[i].outputs
    ensures Freed(p[..i + 1]) == Freed(p[..i]) + p[i].lastUsage
    ensures p[..|p|] == p
  {
    var q := p[..i + 1];
    assert forall j | 0 <= j < i :: q[j] == p[..i][j];
    assert q[i] == p[i];
    forall x | x in Outputs(p[..i]) + p[i].outputs ensures x in Outputs(q) {
      if x in p[i].outputs {
        assert x in q[i].outputs;
      } else {
        var j :| 0 <= j < i && x in p[..i][j].outputs;
        assert x in q[j].outputs;
      }
    }
    forall x | x in Freed(p[..i]) + p[i].lastUsage ensures x in Freed(q) {
      if x in p[i].lastUsage {
        assert x in q[i].lastUsage;
      } else {
        var j :| 0 <= j < i && x in p[..i][j].lastUsage;
        assert x in q[j].lastUsage;
      }
    }
  }

  lemma PrefixOutputs(p: Partition, i: nat)
    requires i <= |p|
    ensures Outputs(p[..i]) <= Outputs(p)
  {
    forall x | x in Outputs(p[..i]) ensures x in Outputs(p) {
      var j :| 0 <= j < i && x in p[..i][j].outputs;
      assert x in p[j].outputs;
    }
  }

  /** No name defined before a partition is defined again in it. */
  lemma OutputsAreNew(s: Scheduler, defined: set<Name>, p: Partition)
    requires PartitionOk(s, defined, p)
    ensures Outputs(p) !! defined && Outputs(p) <= s.nameToNode
  {
    forall x | x in Outputs(p) ensures x !in defined && x in s.nameToNode {
      var i :| 0 <= i < |p| && x in p[i].outputs;
      assert NodeOk(s, defined + Outputs(p[..i]), p[i]);
    }
  }

  /** Mutating a chain of aliases ends in a buffer made in the partition or in one of its inputs. */
  lemma {:induction false} MutationChain(s: Scheduler, defined: set<Name>, p: Partition, i: nat, o: Name)
    requires SchedulerOk(s) && PartitionOk(s, defined, p)
    requires i < |p| && o in p[i].outputs && !IsNoneLayout(s, o)
    ensures Real(s, o) in Outputs(p[..i + 1]) + PartitionInputs(s, p)
    decreases i
  {
    OutputsExtend(p, i);
    OutputsAreNew(s, defined, p);
    PrefixOutputs(p, i);
    assert NodeOk(s, defined + Outputs(p[..i]), p[i]);
    if o in s.mutationRealName {
      var x :| x in (p[i].readNames + p[i].writeNames) * (defined + Outputs(p[..i])) && Real(s, x) == Real(s, o);
      NoneLayoutIsReal(s, x);
      NoneLayoutIsReal(s, o);
      if x in Outputs(p[..i]) {
        var j :| 0 <= j < i && x in p[..i][j].outputs;
        MutationChain(s, defined, p, j, x);
        OutputsMonotone(p, j + 1, i + 1);
      } else {
        assert x in ReadWrites(p);
      }
    }
  }

  lemma OutputsMonotone(p: Partition, i: nat, j: nat)
    requires i <= j <= |p|
    ensures Outputs(p[..i]) <= Outputs(p[..j])
  {
    assert p[..i] == p[..j][..i];
    PrefixOutputs(p[..j], i);
  }

  /** Storage defined before a partition and touched by it is one of its inputs. */
  lemma TouchedIsInput(s: Scheduler, defined: set<Name>, p: Partition, r: Name)
    requires SchedulerOk(s) && PartitionOk(s, defined, p) && Closed(s, defined)
    requires r in TouchedBy(s, p) && r in defined && r !in s.constants
    requires r !in s.mutationRealName && !IsNoneLayout(s, r)
    ensures r in PartitionInputs(s, p)
  {
    OutputsAreNew(s, defined, p);
    var i :| 0 <= i < |p| && r in Touches(s, p[i]);
    if r in p[i].lastUsage {
      assert r in Freed(p);
    } else {
      var x :| x in p[i].readNames + p[i].writeNames + p[i].outputs && Real(s, x) == r;
      NoneLayoutIsReal(s, x);
      if x in Outputs(p) {
        var j :| 0 <= j < |p| && x in p[j].outputs;
        MutationChain(s, defined, p, j, x);
        PrefixOutputs(p, j + 1);
      } else {
        assert x !in p[i].outputs;
        assert x in ReadWrites(p);
      }
    }
  }

  /** Conversely every input is storage that the partition touches and that exists before it. */
  lemma InputIsTouched(s: Scheduler, defined: set<Name>, p: Partition, r: Name)
    requires SchedulerOk(s) && PartitionOk(s, defined, p) && Closed(s, defined)
    requires r in PartitionInputs(s, p)
    ensures r in TouchedBy(s, p) && r in defined && r !in s.mutationRealName
  {
    OutputsAreNew(s, defined, p);
    if r in Freed(p) - Outputs(p) {
      var i :| 0 <= i < |p| && r in p[i].lastUsage;
      assert NodeOk(s, defined + Outputs(p[..i]), p[i]);
      PrefixOutputs(p, i);
      assert r in Touches(s, p[i]);
      assert r !in p[i].outputs;
    } else {
      var x :| x in ReadWrites(p) && x !in Outputs(p) && Real(s, x) == r;
      NoneLayoutIsReal(s, x);
      var i :| 0 <= i < |p| && x in p[i].readNames + p[i].writeNames;
      assert NodeOk(s, defined + Outputs(p[..i]), p[i]);
      PrefixOutputs(p, i);
      assert r in Touches(s, p[i]);
      assert x !in p[i].outputs;
    }
  }

  lemma ClosedAfter(s: Scheduler, defined: set<Name>, p: Partition)
    requires SchedulerOk(s) && PartitionOk(s, defined, p) && Closed(s, defined)
    ensures Closed(s, defined + Outputs(p))
  {
    OutputsAreNew(s, defined, p);
    forall o | o in Outputs(p) ensures Real(s, o) in defined + Outputs(p) {
      var i :| 0 <= i < |p| && o in p[i].outputs;
      ClosedPrefix(s, defined, p, i, o);
    }
  }

  lemma {:induction false} ClosedPrefix(s: Scheduler, defined: set<Name>, p: Partition, i: nat, o: Name)
    requires SchedulerOk(s) && PartitionOk(s, defined, p) && Closed(s, defined)
    requires i < |p| && o in p[i].outputs
    ensures Real(s, o) in defined + Outputs(p)
    decreases i
  {
    assert NodeOk(s, defined + Outputs(p[..i]), p[i]);
    if o in s.mutationRealName {
      var x :| x in (p[i].readNames + p[i].writeNames) * (defined + Outputs(p[..i])) && Real(s, x) == Real(s, o);
      if x in Outputs(p[..i]) {
        var j :| 0 <= j < i && x in p[..i][j].outputs;
        ClosedPrefix(s, defined, p, j, x);
      }
    }
  }

  // ----- the backward pass finds what is needed -----

  /** Whatever the pass keeps as unmet is needed. */
  lemma {:induction false} UnmetIsNeeded(s: Scheduler, defined: set<Name>, ps: seq<Partition>, x: Name)
    requires SchedulerOk(s) && PartitionsOk(s, defined, ps) && Closed(s, defined)
    requires x in Unmet(s, ps)
    ensures Real(s, x) in Needed(s, ps)
    decreases ps
  {
    if ps != [] {
      if x in PartitionInputs(s, ps[0]) {
        InputIsTouched(s, defined, ps[0], x);
      } else {
        ClosedAfter(s, defined, ps[0]);
        UnmetIsNeeded(s, defined + Outputs(ps[0]), ps[1..], x);
      }
    }
  }

  /** Needed storage is unmet under its own name, or under the name of a graph output aliasing it. */
  lemma {:induction false} NeededIsUnmet(s: Scheduler, defined: set<Name>, ps: seq<Partition>, r: Name)
    requires SchedulerOk(s) && PartitionsOk(s, defined, ps) && Closed(s, defined)
    requires r in Needed(s, ps) && r in defined && r !in s.constants
    requires r !in s.mutationRealName && !IsNoneLayout(s, r)
    ensures exists x :: x in Unmet(s, ps) && x in defined && Real(s, x) == r
    decreases ps
  {
    if ps == [] {
      var g :| g in s.graphOutputs && Real(s, g) == r;
      assert g in Unmet(s, ps) && g in defined;
    } else {
      var p, after := ps[0], Unmet(s, ps[1..]);
      if r in TouchedBy(s, p) {
        TouchedIsInput(s, defined, p, r);
        assert r in Unmet(s, ps) && Real(s, r) == r;
      } else {
        ClosedAfter(s, defined, p);
        NeededIsUnmet(s, defined + Outputs(p), ps[1..], r);
        var x :| x in after && x in defined + Outputs(p) && Real(s, x) == r;
        ReturnedIsTouched(s, defined, p, after);
        OutputIsTouched(s, p, x);
        NoneLayoutIsReal(s, x);
        assert x !in Returned(s, p, after);
        assert x in Unmet(s, ps) && x in defined;
      }
    }
  }

  lemma OutputIsTouched(s: Scheduler, p: Partition, o: Name)
    ensures o in Outputs(p) ==> Real(s, o) in TouchedBy(s, p)
  {
    if o in Outputs(p) {
      var i :| 0 <= i < |p| && o in p[i].outputs;
      assert Real(s, o) in Touches(s, p[i]);
    }
  }

  lemma ReturnedIsTouched(s: Scheduler, defined: set<Name>, p: Partition, unmet: set<Name>)
    requires SchedulerOk(s) && PartitionOk(s, defined, p) && Closed(s, defined)
    ensures Returned(s, p, unmet) <= TouchedBy(s, p)
    ensures forall r | r in Returned(s, p, unmet) :: r !in s.mutationRealName && r !in s.constants
  {
    OutputsAreNew(s, defined, p);
    forall r | r in Returned(s, p, unmet)
      ensures r in TouchedBy(s, p) && r !in s.mutationRealName && r !in s.constants
    {
      var x :| x in Outputs(p) * unmet + (PartitionInputs(s, p) * s.nameToNode - Freed(p)) && Real(s, x) == r;
      NoneLayoutIsReal(s, x);
      if x in Outputs(p) {
        OutputIsTouched(s, p, x);
        var i :| 0 <= i < |p| && x in p[i].outputs;
        assert NodeOk(s, defined + Outputs(p[..i]), p[i]);
      } else {
        InputIsTouched(s, defined, p, x);
      }
    }
  }

  // ----- running one partition -----

  /** The partition's store agrees with the reference on everything handed in or made so far and not yet freed. */
  predicate Agrees<V(==)>(s: Scheduler, p: Partition, i: nat, local: map<Name, V>, whole: map<Name, V>)
    requires Resolved(s) && i <= |p|
  {
    forall r | r in PartitionInputs(s, p) + Outputs(p[..i]) ::
      r !in s.mutationRealName && !IsNoneLayout(s, r) && r !in Freed(p[..i]) - s.constants
      ==> r in local && r in whole && local[r] == whole[r]
  }

  /** Storage a node looks at was handed in or made before it, and has not been freed. */
  lemma OperandIsLive(s: Scheduler, defined: set<Name>, p: Partition, i: nat, r: Name)
    requires SchedulerOk(s) && PartitionOk(s, defined, p) && i < |p| && r in Accessed(s, p[i])
    ensures r in PartitionInputs(s, p) + Outputs(p[..i]) && r !in Freed(p[..i])
    ensures r !in s.mutationRealName && !IsNoneLayout(s, r)
  {
    var x :| x in p[i].readNames + p[i].writeNames && x !in p[i].outputs && !IsNoneLayout(s, x) && Real(s, x) == r;
    NoneLayoutIsReal(s, x);
    OutputsAreNew(s, defined, p);
    assert NodeOk(s, defined + Outputs(p[..i]), p[i]);
    if x in Outputs(p[..i]) {
      var j :| 0 <= j < i && x in p[..i][j].outputs;
      MutationChain(s, defined, p, j, x);
      OutputsMonotone(p, j + 1, i);
    } else {
      assert x in ReadWrites(p) && x !in Outputs(p);
    }
    assert r in Touches(s, p[i]);
    forall j | 0 <= j < i ensures r !in p[..i][j].lastUsage {
      assert DoneWith(s, p[j], p[i]);
    }
  }

  /** Every operand of a node is there when the node runs, with the reference's content. */
  lemma OperandsAgree<V>(s: Scheduler, defined: set<Name>, p: Partition, i: nat,
                         local: map<Name, V>, whole: map<Name, V>)
    requires SchedulerOk(s) && PartitionOk(s, defined, p) && i < |p|
    requires Agrees(s, p, i, local, whole)
    ensures Accessed(s, p[i]) <= local.Keys
    ensures Restrict(local, Accessed(s, p[i])) == Restrict(whole, Accessed(s, p[i]))
  {
    forall r | r in Accessed(s, p[i]) ensures r in local && r in whole && local[r] == whole[r] {
      OperandIsLive(s, defined, p, i, r);
    }
  }

  /** What a node leaves of the two stores. */
  lemma StepAgreesAt<V>(s: Scheduler, kernel: Kernel<V>, defined: set<Name>, p: Partition, i: nat,
                        local: map<Name, V>, whole: map<Name, V>, r: Name)
    requires SchedulerOk(s) && PartitionOk(s, defined, p) && i < |p|
    requires Agrees(s, p, i, local, whole)
    requires r in PartitionInputs(s, p) || r in Outputs(p[..i]) || r in p[i].outputs
    requires r !in s.mutationRealName && !IsNoneLayout(s, r) && (r in Freed(p[..i]) ==> r in s.constants)
    ensures var local', whole' := RunNode(s, kernel, p[i], local), RunNode(s, kernel, p[i], whole);
            r in local' && r in whole' && local'[r] == whole'[r]
  {
    OperandsAgree(s, defined, p, i, local, whole);
    if r in p[i].outputs {
      assert Real(s, r) == r && r in Stored(s, p[i]);
    }
  }

  lemma StepAgrees<V>(s: Scheduler, kernel: Kernel<V>, defined: set<Name>, p: Partition, i: nat,
                      local: map<Name, V>, whole: map<Name, V>)
    requires SchedulerOk(s) && PartitionOk(s, defined, p) && i < |p|
    requires Agrees(s, p, i, local, whole)
    ensures Agrees(s, p, i + 1, RunNode(s, kernel, p[i], local) - (p[i].lastUsage - s.constants),
                   RunNode(s, kernel, p[i], whole))
  {
    OutputsExtend(p, i);
    var local', whole' := RunNode(s, kernel, p[i], local), RunNode(s, kernel, p[i], whole);
    forall r | r in PartitionInputs(s, p) + Outputs(p[..i + 1]) && r !in s.mutationRealName && !IsNoneLayout(s, r)
               && r !in Freed(p[..i + 1]) - s.constants
      ensures r !in p[i].lastUsage - s.constants && r in local' && r in whole' && local'[r] == whole'[r]
    {
      StepAgreesAt(s, kernel, defined, p, i, local, whole, r);
    }
  }

  lemma {:induction false} LocalRunAgrees<V>(s: Scheduler, kernel: Kernel<V>, defined: set<Name>, p: Partition, i: nat,
                                             local: map<Name, V>, whole: map<Name, V>)
    requires SchedulerOk(s) && PartitionOk(s, defined, p) && i <= |p|
    requires Agrees(s, p, i, local, whole)
    ensures RunLocal(s, kernel, p[i..], local).Some?
    ensures Agrees(s, p, |p|, RunLocal(s, kernel, p[i..], local).value, RunNodes(s, kernel, p[i..], whole))
    decreases |p| - i
  {
    if i < |p| {
      OperandsAgree(s, defined, p, i, local, whole);
      StepAgrees(s, kernel, defined, p, i, local, whole);
      assert p[i..][0] == p[i] && p[i..][1..] == p[i + 1..];
      LocalRunAgrees(s, kernel, defined, p, i + 1,
                     RunNode(s, kernel, p[i], local) - (p[i].lastUsage - s.constants), RunNode(s, kernel, p[i], whole));
    }
  }

  /** The reference run changes nothing but storage the nodes write. */
  lemma {:induction false} RunNodesFrame<V>(s: Scheduler, kernel: Kernel<V>, p: Partition, store: map<Name, V>)
    requires SchedulerOk(s)
    ensures store.Keys <= RunNodes(s, kernel, p, store).Keys
    ensures forall r | r in store && (forall i | 0 <= i < |p| :: r !in Stored(s, p[i])) ::
              RunNodes(s, kernel, p, store)[r] == store[r]
  {
    if p != [] {
      RunNodesFrame(s, kernel, p[1..], RunNode(s, kernel, p[0], store));
      forall r | r in store && (forall i | 0 <= i < |p| :: r !in Stored(s, p[i]))
        ensures RunNodes(s, kernel, p, store)[r] == store[r]
      {
        assert r !in Stored(s, p[0]);
        assert forall i | 0 <= i < |p[1..]| :: p[1..][i] == p[i + 1];
      }
    }
  }

  lemma {:induction false} RunNodesAppend<V>(s: Scheduler, kernel: Kernel<V>, p: Partition, q: Partition, store: map<Name, V>)
    requires Resolved(s)
    ensures RunNodes(s, kernel, p + q, store) == RunNodes(s, kernel, q, RunNodes(s, kernel, p, store))
  {
    if p == [] {
      assert p + q == q;
    } else {
      assert (p + q)[0] == p[0] && (p + q)[1..] == p[1..] + q;
      RunNodesAppend(s, kernel, p[1..], q, RunNode(s, kernel, p[0], store));
    }
  }

  // ----- running all partitions -----

  /** Names with storage of their own. */
  predicate HasStorage(s: Scheduler, defined: set<Name>, r: Name)
    requires Resolved(s)
  {
    r in defined && r !in s.mutationRealName && !IsNoneLayout(s, r)
  }

  /** The caller holds allocated buffers only, and agrees with the reference on all that is still needed. */
  predicate Faithful<V(==)>(s: Scheduler, defined: set<Name>, ps: seq<Partition>, outer: map<Name, V>, whole: map<Name, V>)
    requires Resolved(s)
  {
    && (forall r | r in outer :: HasStorage(s, defined, r))
    && (forall r | r in Needed(s, ps) + s.constants ::
          HasStorage(s, defined, r) ==> r in outer && r in whole && outer[r] == whole[r])
  }

  /** Every allocated graph output is present in both stores, with the same content. */
  predicate SameGraphOutputs<V(==)>(s: Scheduler, result: map<Name, V>, reference: map<Name, V>)
    requires Resolved(s)
  {
    forall g | g in s.graphOutputs && !IsNoneLayout(s, g) ::
      Real(s, g) in result && Real(s, g) in reference && result[Real(s, g)] == reference[Real(s, g)]
  }

  /** An unallocated buffer that is freed after its partition is asked for, and nobody can have it. */
  lemma InputsAvailable<V>(s: Scheduler, defined: set<Name>, ps: seq<Partition>, skip: bool,
                           outer: map<Name, V>, whole: map<Name, V>)
    requires SchedulerOk(s) && Closed(s, defined) && ps != [] && PartitionsOk(s, defined, ps)
    requires Faithful(s, defined, ps, outer, whole)
    ensures var sig := SignatureOf(s, ps[0], skip, Unmet(s, ps[1..]));
            sig.inputs + sig.constants <= outer.Keys
            <==> forall x | x in Freed(ps[0]) :: IsNoneLayout(s, x) ==> x in Outputs(ps[0])
  {
    var p := ps[0];
    var sig := SignatureOf(s, p, skip, Unmet(s, ps[1..]));
    OutputsAreNew(s, defined, p);
    forall r | r in PartitionInputs(s, p)
      ensures r in TouchedBy(s, p) && r in defined && r !in s.mutationRealName
    {
      InputIsTouched(s, defined, p, r);
    }
    if x :| x in Freed(p) && IsNoneLayout(s, x) && x !in Outputs(p) {
      var i :| 0 <= i < |p| && x in p[i].lastUsage;
      assert NodeOk(s, defined + Outputs(p[..i]), p[i]);
      PrefixOutputs(p, i);
      assert x !in p[i].outputs;
      assert x in sig.inputs && x !in outer;
    } else {
      forall r | r in sig.inputs + sig.constants ensures r in outer {
        if IsNoneLayout(s, r) && r !in Freed(p) {
          var y :| y in ReadWrites(p) && !IsNoneLayout(s, y) && Real(s, y) == r;
          NoneLayoutIsReal(s, y);
        }
      }
    }
  }

  lemma EntryAgrees<V>(s: Scheduler, defined: set<Name>, ps: seq<Partition>, skip: bool,
                       outer: map<Name, V>, whole: map<Name, V>)
    requires SchedulerOk(s) && Closed(s, defined) && ps != [] && PartitionsOk(s, defined, ps)
    requires Faithful(s, defined, ps, outer, whole)
    ensures var sig := SignatureOf(s, ps[0], skip, Unmet(s, ps[1..]));
            Agrees(s, ps[0], 0, Restrict(outer, sig.inputs + sig.constants), whole)
  {
    forall r | r in PartitionInputs(s, ps[0])
      ensures r in TouchedBy(s, ps[0]) && r in defined && r !in s.mutationRealName
    {
      InputIsTouched(s, defined, ps[0], r);
    }
  }

  /** All that the signature promises to return is there, with the reference's content. */
  lemma OutputsAgree<V>(s: Scheduler, defined: set<Name>, ps: seq<Partition>, skip: bool,
                        local: map<Name, V>, whole: map<Name, V>)
    requires SchedulerOk(s) && Closed(s, defined) && ps != [] && PartitionsOk(s, defined, ps)
    requires Agrees(s, ps[0], |ps[0]|, local, whole)
    ensures var sig := SignatureOf(s, ps[0], skip, Unmet(s, ps[1..]));
            forall r | r in sig.outputs :: r in local && r in whole && local[r] == whole[r]
  {
    var p, after := ps[0], Unmet(s, ps[1..]);
    var sig := SignatureOf(s, p, skip, after);
    assert p[..|p|] == p;
    forall r | r in sig.outputs ensures r in local && r in whole && local[r] == whole[r] {
      var x :| x in Outputs(p) * after + (PartitionInputs(s, p) * s.nameToNode - Freed(p)) && Real(s, x) == r;
      NoneLayoutIsReal(s, x);
      if x in Outputs(p) * after {
        var i :| 0 <= i < |p| && x in p[i].outputs;
        MutationChain(s, defined, p, i, x);
        PrefixOutputs(p, i + 1);
        ClosedAfter(s, defined, p);
        UnmetIsNeeded(s, defined + Outputs(p), ps[1..], x);
      } else {
        InputIsTouched(s, defined, p, x);
      }
    }
  }

  lemma StoredIsTouched(s: Scheduler, p: Partition, i: nat)
    requires Resolved(s) && i < |p|
    ensures Stored(s, p[i]) <= TouchedBy(s, p)
  {
    forall r | r in Stored(s, p[i]) ensures r in TouchedBy(s, p) {
      assert r in Touches(s, p[i]);
    }
  }

  lemma ConstantsNotStored(s: Scheduler, defined: set<Name>, p: Partition, i: nat)
    requires SchedulerOk(s) && Closed(s, defined) && PartitionOk(s, defined, p) && i < |p|
    ensures Stored(s, p[i]) !! s.constants
  {
    assert NodeOk(s, defined + Outputs(p[..i]), p[i]);
  }

  /** Storage that is still needed and was made in the partition, or handed to it, is returned. */
  lemma NeededIsReturned(s: Scheduler, defined: set<Name>, ps: seq<Partition>, r: Name)
    requires SchedulerOk(s) && Closed(s, defined) && ps != [] && PartitionsOk(s, defined, ps)
    requires r in Needed(s, ps[1..]) && r !in s.constants && HasStorage(s, defined + Outputs(ps[0]), r)
    requires r in Outputs(ps[0]) || r in TouchedBy(s, ps[0])
    ensures r in Returned(s, ps[0], Unmet(s, ps[1..]))
  {
    var p, after := ps[0], Unmet(s, ps[1..]);
    OutputsAreNew(s, defined, p);
    if r in Outputs(p) {
      ClosedAfter(s, defined, p);
      NeededIsUnmet(s, defined + Outputs(p), ps[1..], r);
      var x :| x in after && x in defined + Outputs(p) && Real(s, x) == r;
      assert x in Outputs(p);
    } else {
      TouchedIsInput(s, defined, p, r);
      assert Real(s, r) == r;
    }
  }

  /** What the caller holds after a partition is allocated. */
  lemma AfterHasStorage<V>(s: Scheduler, defined: set<Name>, p: Partition, skip: bool, unmet: set<Name>,
                           outer: map<Name, V>, local: map<Name, V>, r: Name)
    requires SchedulerOk(s) && Closed(s, defined) && PartitionOk(s, defined, p)
    requires r in outer ==> HasStorage(s, defined, r)
    requires r in After(SignatureOf(s, p, skip, unmet), outer, local)
    ensures HasStorage(s, defined + Outputs(p), r)
  {
    if r in SignatureOf(s, p, skip, unmet).outputs {
      ReturnedIsTouched(s, defined, p, unmet);
      ReturnedIsDefined(s, defined, p, unmet, r);
    }
  }

  /** Storage that a partition does not touch, or that is constant, keeps its content in the whole run. */
  lemma UntouchedStays<V>(s: Scheduler, kernel: Kernel<V>, defined: set<Name>, p: Partition, whole: map<Name, V>, r: Name)
    requires SchedulerOk(s) && Closed(s, defined) && PartitionOk(s, defined, p) && r in whole
    requires r in s.constants || r !in TouchedBy(s, p)
    ensures var whole' := RunNodes(s, kernel, p, whole); r in whole' && whole'[r] == whole[r]
  {
    forall i | 0 <= i < |p| ensures r !in Stored(s, p[i]) {
      if r in s.constants { ConstantsNotStored(s, defined, p, i); } else { StoredIsTouched(s, p, i); }
    }
    RunNodesFrame(s, kernel, p, whole);
  }

  /** The caller keeps what a partition does not touch, and what is constant. */
  lemma UntouchedIsKept<V>(s: Scheduler, defined: set<Name>, p: Partition, skip: bool, unmet: set<Name>,
                           outer: map<Name, V>, local: map<Name, V>, r: Name)
    requires SchedulerOk(s) && Closed(s, defined) && PartitionOk(s, defined, p) && r in outer
    requires r in s.constants || r !in TouchedBy(s, p)
    ensures var outer' := After(SignatureOf(s, p, skip, unmet), outer, local); r in outer' && outer'[r] == outer[r]
  {
    ReturnedIsTouched(s, defined, p, unmet);
    FreedIsTouched(s, p);
  }

  lemma FreedIsTouched(s: Scheduler, p: Partition)
    ensures Freed(p) <= TouchedBy(s, p)
  {
    forall x | x in Freed(p) ensures x in TouchedBy(s, p) {
      var i :| 0 <= i < |p| && x in p[i].lastUsage;
      assert x in Touches(s, p[i]);
    }
  }

  /** Storage that the partition touched and that is still needed comes back with the content of the whole run. */
  lemma TouchedComesBack<V>(s: Scheduler, defined: set<Name>, ps: seq<Partition>, skip: bool,
                            outer: map<Name, V>, local: map<Name, V>, whole: map<Name, V>, r: Name)
    requires SchedulerOk(s) && Closed(s, defined) && ps != [] && PartitionsOk(s, defined, ps)
    requires Agrees(s, ps[0], |ps[0]|, local, whole)
    requires r in Needed(s, ps[1..]) && r !in s.constants && HasStorage(s, defined + Outputs(ps[0]), r)
    requires r in Outputs(ps[0]) || r in TouchedBy(s, ps[0])
    ensures var outer' := After(SignatureOf(s, ps[0], skip, Unmet(s, ps[1..])), outer, local);
            r in outer' && r in whole && outer'[r] == whole[r]
  {
    NeededIsReturned(s, defined, ps, r);
    OutputsAgree(s, defined, ps, skip, local, whole);
  }

  /** After a partition the caller agrees with the whole run on storage that is still needed. */
  lemma AfterAgreesAt<V>(s: Scheduler, kernel: Kernel<V>, defined: set<Name>, ps: seq<Partition>, skip: bool,
                         outer: map<Name, V>, local: map<Name, V>, whole: map<Name, V>, r: Name)
    requires SchedulerOk(s) && Closed(s, defined) && ps != [] && PartitionsOk(s, defined, ps)
    requires Faithful(s, defined, ps, outer, whole)
    requires Agrees(s, ps[0], |ps[0]|, local, RunNodes(s, kernel, ps[0], whole))
    requires r in Needed(s, ps[1..]) + s.constants && HasStorage(s, defined + Outputs(ps[0]), r)
    ensures var outer', whole' := After(SignatureOf(s, ps[0], skip, Unmet(s, ps[1..])), outer, local),
                                  RunNodes(s, kernel, ps[0], whole);
            r in outer' && r in whole' && outer'[r] == whole'[r]
  {
    if r !in s.constants && (r in Outputs(ps[0]) || r in TouchedBy(s, ps[0])) {
      TouchedComesBack(s, defined, ps, skip, outer, local, RunNodes(s, kernel, ps[0], whole), r);
    } else {
      assert r in outer && r in whole && outer[r] == whole[r];
      UntouchedIsKept(s, defined, ps[0], skip, Unmet(s, ps[1..]), outer, local, r);
      UntouchedStays(s, kernel, defined, ps[0], whole, r);
    }
  }

  lemma AfterIsFaithful<V>(s: Scheduler, kernel: Kernel<V>, defined: set<Name>, ps: seq<Partition>, skip: bool,
                           outer: map<Name, V>, local: map<Name, V>, whole: map<Name, V>)
    requires SchedulerOk(s) && Closed(s, defined) && ps != [] && PartitionsOk(s, defined, ps)
    requires Faithful(s, defined, ps, outer, whole)
    requires Agrees(s, ps[0], |ps[0]|, local, RunNodes(s, kernel, ps[0], whole))
    ensures var sig := SignatureOf(s, ps[0], skip, Unmet(s, ps[1..]));
            Faithful(s, defined + Outputs(ps[0]), ps[1..], After(sig, outer, local), RunNodes(s, kernel, ps[0], whole))
  {
    var outer' := After(SignatureOf(s, ps[0], skip, Unmet(s, ps[1..])), outer, local);
    var whole', defined' := RunNodes(s, kernel, ps[0], whole), defined + Outputs(ps[0]);
    forall r | r in outer' ensures HasStorage(s, defined', r) {
      AfterHasStorage(s, defined, ps[0], skip, Unmet(s, ps[1..]), outer, local, r);
    }
    forall r | r in Needed(s, ps[1..]) + s.constants && HasStorage(s, defined', r)
      ensures r in outer' && r in whole' && outer'[r] == whole'[r]
    {
      AfterAgreesAt(s, kernel, defined, ps, skip, outer, local, whole, r);
    }
  }

  lemma ReturnedIsDefined(s: Scheduler, defined: set<Name>, p: Partition, unmet: set<Name>, r: Name)
    requires SchedulerOk(s) && Closed(s, defined) && PartitionOk(s, defined, p)
    requires r in Returned(s, p, unmet)
    ensures r in defined + Outputs(p)
  {
    ClosedAfter(s, defined, p);
    var x :| x in Outputs(p) * unmet + (PartitionInputs(s, p) * s.nameToNode - Freed(p)) && Real(s, x) == r;
    if x !in Outputs(p) { InputIsTouched(s, defined, p, x); }
  }

  lemma FaithfulAtTheEnd<V>(s: Scheduler, defined: set<Name>, outer: map<Name, V>, whole: map<Name, V>)
    requires SchedulerOk(s) && Closed(s, defined) && PartitionsOk(s, defined, [])
    requires Faithful(s, defined, [], outer, whole)
    ensures SameGraphOutputs(s, outer, whole)
  {
    forall g | g in s.graphOutputs && !IsNoneLayout(s, g)
      ensures HasStorage(s, defined, Real(s, g)) && Real(s, g) in Needed(s, [])
    {
      NoneLayoutIsReal(s, g);
    }
  }

  /** A partition that gets its inputs runs to the end and leaves the caller faithful to the reference. */
  lemma OnePartition<V>(s: Scheduler, kernel: Kernel<V>, defined: set<Name>, ps: seq<Partition>, skips: seq<bool>,
                        outer: map<Name, V>, whole: map<Name, V>) returns (next: map<Name, V>)
    requires SchedulerOk(s) && Closed(s, defined) && ps != [] && PartitionsOk(s, defined, ps) && |skips| == |ps|
    requires Faithful(s, defined, ps, outer, whole)
    requires var sig := SignatureOf(s, ps[0], skips[0], Unmet(s, ps[1..])); sig.inputs + sig.constants <= outer.Keys
    ensures RunPartitions(s, kernel, ps, Signatures(s, ps, skips), outer)
            == RunPartitions(s, kernel, ps[1..], Signatures(s, ps[1..], skips[1..]), next)
    ensures Faithful(s, defined + Outputs(ps[0]), ps[1..], next, RunNodes(s, kernel, ps[0], whole))
  {
    var p := ps[0];
    var sig := SignatureOf(s, p, skips[0], Unmet(s, ps[1..]));
    var start := Restrict(outer, sig.inputs + sig.constants);
    EntryAgrees(s, defined, ps, skips[0], outer, whole);
    LocalRunAgrees(s, kernel, defined, p, 0, start, whole);
    assert p[0..] == p;
    var local := RunLocal(s, kernel, p, start).value;
    OutputsAgree(s, defined, ps, skips[0], local, RunNodes(s, kernel, p, whole));
    AfterIsFaithful(s, kernel, defined, ps, skips[0], outer, local, whole);
    next := After(sig, outer, local);
    var sigs := Signatures(s, ps, skips);
    assert sigs[0] == sig && sigs[1..] == Signatures(s, ps[1..], skips[1..]);
  }

  lemma {:induction false} PartitionedRun<V>(s: Scheduler, kernel: Kernel<V>, defined: set<Name>,
                                             ps: seq<Partition>, skips: seq<bool>,
                                             outer: map<Name, V>, whole: map<Name, V>)
    requires SchedulerOk(s) && Closed(s, defined) && PartitionsOk(s, defined, ps) && |skips| == |ps|
    requires Faithful(s, defined, ps, outer, whole)
    ensures var result := RunPartitions(s, kernel, ps, Signatures(s, ps, skips), outer);
            && (result.Some? <==> FreesOnlyAllocated(s, ps))
            && (result.Some? ==> SameGraphOutputs(s, result.value, RunNodes(s, kernel, Flatten(ps), whole)))
    decreases ps
  {
    if ps == [] {
      FaithfulAtTheEnd(s, defined, outer, whole);
    } else {
      var sig := SignatureOf(s, ps[0], skips[0], Unmet(s, ps[1..]));
      InputsAvailable(s, defined, ps, skips[0], outer, whole);
      SplitFrees(s, ps);
      if sig.inputs + sig.constants <= outer.Keys {
        var next := OnePartition(s, kernel, defined, ps, skips, outer, whole);
        ClosedAfter(s, defined, ps[0]);
        PartitionedRun(s, kernel, defined + Outputs(ps[0]), ps[1..], skips[1..], next, RunNodes(s, kernel, ps[0], whole));
        RunNodesAppend(s, kernel, ps[0], Flatten(ps[1..]), whole);
      } else {
        assert Signatures(s, ps, skips)[0] == sig;
      }
    }
  }

  lemma SplitFrees(s: Scheduler, ps: seq<Partition>)
    requires Resolved(s) && ps != []
    ensures FreesOnlyAllocated(s, ps)
            <==> FreesOnlyAllocated(s, ps[1..])
                 && forall x | x in Freed(ps[0]) :: IsNoneLayout(s, x) ==> x in Outputs(ps[0])
  {
    forall k | 1 <= k < |ps| ensures ps[k] == ps[1..][k - 1] {}
    if FreesOnlyAllocated(s, ps) {
      forall k, x | 0 <= k < |ps[1..]| && x in Freed(ps[1..][k])
        ensures IsNoneLayout(s, x) ==> x in Outputs(ps[1..][k])
      {
        assert ps[1..][k] == ps[k + 1];
      }
    }
  }

  // ----- the theorem -----

  /** A graph as the scheduler hands it over. */
  predicate GraphOk(s: Scheduler, ps: seq<Partition>) {
    && SchedulerOk(s)
    && s.nameToNode == s.graphInputs + Outputs(Flatten(ps))
    && PartitionsOk(s, s.graphInputs + s.constants, ps)
  }

  /**
  Running the partitions through their signatures means running the nodes in order: every buffer asked for
  exists, and every graph output holds what the whole run leaves there. The one way to fail is a
  partition that frees an unallocated buffer of an earlier partition.
  */
  lemma PartitioningPreservesMeaning<V>(s: Scheduler, kernel: Kernel<V>, ps: seq<Partition>, skips: seq<bool>,
                                        arguments: map<Name, V>)
    requires GraphOk(s, ps) && |skips| == |ps|
    requires arguments.Keys == s.graphInputs + s.constants
    ensures var result := RunPartitions(s, kernel, ps, Signatures(s, ps, skips), arguments);
            && (result.Some? <==> FreesOnlyAllocated(s, ps))
            && (result.Some? ==> SameGraphOutputs(s, result.value, RunNodes(s, kernel, Flatten(ps), arguments)))
  {
    PartitionedRun(s, kernel, s.graphInputs + s.constants, ps, skips, arguments, arguments);
  }

  /** A caller that holds allocated buffers only. */
  predicate HoldsAllocated<V>(s: Scheduler, outer: map<Name, V>)
    requires Resolved(s)
  {
    forall r | r in outer :: !IsNoneLayout(s, r)
  }

  /**
  A partition that asks for an unallocated buffer cannot be called, whatever the graph is. This is what becomes of
  a mutation output with a layout of its own whose real buffer has none, as soon as another partition uses it.
  */
  lemma {:induction false} UnallocatedInputFails<V>(s: Scheduler, kernel: Kernel<V>, ps: seq<Partition>, skips: seq<bool>,
                                                    outer: map<Name, V>, k: nat, r: Name)
    requires Resolved(s) && |skips| == |ps| && HoldsAllocated(s, outer)
    requires k < |ps| && r in PartitionInputs(s, ps[k]) && r in s.nameToNode && IsNoneLayout(s, r)
    ensures RunPartitions(s, kernel, ps, Signatures(s, ps, skips), outer) == None
    decreases k
  {
    var sig := SignatureOf(s, ps[0], skips[0], Unmet(s, ps[1..]));
    if k == 0 {
      assert r in sig.inputs && r !in outer;
    } else if sig.inputs + sig.constants <= outer.Keys {
      var local := RunLocal(s, kernel, ps[0], Restrict(outer, sig.inputs + sig.constants));
      if local.Some? {
        UnallocatedInputFails(s, kernel, ps[1..], skips[1..], After(sig, outer, local.value), k - 1, r);
      }
    }
  }

  lemma AliasOfUnallocatedFails<V>(s: Scheduler, kernel: Kernel<V>, ps: seq<Partition>, skips: seq<bool>,
                                   outer: map<Name, V>, k: nat, alias: Name)
    requires Resolved(s) && |skips| == |ps| && HoldsAllocated(s, outer)
    requires k < |ps| && alias in ReadWrites(ps[k]) && alias !in Outputs(ps[k])
    requires !IsNoneLayout(s, alias) && IsNoneLayout(s, Real(s, alias)) && Real(s, alias) in s.nameToNode
    ensures RunPartitions(s, kernel, ps, Signatures(s, ps, skips), outer) == None
  {
    assert Real(s, alias) in PartitionInputs(s, ps[k]);
    UnallocatedInputFails(s, kernel, ps, skips, outer, k, Real(s, alias));
  }

  // ----- what is freed -----

  /** Every signature tells of each input whether its partition is the last to use it, and passes its flag on. */
  lemma {:induction false} SignatureFlags(s: Scheduler, ps: seq<Partition>, skips: seq<bool>, k: nat, x: Name)
    requires Resolved(s) && |skips| == |ps| && k < |ps|
    ensures var sig := Signatures(s, ps, skips)[k];
            && sig.skipCudagraph == skips[k]
            && sig.deallocation.Keys == sig.inputs
            && (x in sig.inputs ==> (sig.deallocation[x] <==> exists i | 0 <= i < |ps[k]| :: x in ps[k][i].lastUsage))
    decreases k
  {
    if k > 0 {
      SignatureFlags(s, ps[1..], skips[1..], k - 1, x);
    }
  }

  /** What a partition frees it does not return. */
  lemma FreedIsNotReturned(s: Scheduler, defined: set<Name>, ps: seq<Partition>, r: Name)
    requires SchedulerOk(s) && Closed(s, defined) && ps != [] && PartitionsOk(s, defined, ps) && r in Freed(ps[0])
    ensures r !in Returned(s, ps[0], Unmet(s, ps[1..]))
  {
    var p, unmet := ps[0], Unmet(s, ps[1..]);
    if r in Returned(s, p, unmet) {
      var x :| x in Outputs(p) * unmet + (PartitionInputs(s, p) * s.nameToNode - Freed(p)) && Real(s, x) == r;
      if x in Outputs(p) * unmet {
        ClosedAfter(s, defined, p);
        UnmetIsNeeded(s, defined + Outputs(p), ps[1..], x);
      } else {
        InputIsReal(s, defined, p, x);
      }
    }
  }

  lemma InputIsReal(s: Scheduler, defined: set<Name>, p: Partition, x: Name)
    requires SchedulerOk(s) && PartitionOk(s, defined, p) && x in PartitionInputs(s, p)
    ensures Real(s, x) == x
  {
    if x in Freed(p) {
      var i :| 0 <= i < |p| && x in p[i].lastUsage;
      assert NodeOk(s, defined + Outputs(p[..i]), p[i]);
    }
  }

  /** Once a partition has returned, the caller does not hold what it freed. */
  lemma FreedIsGone<V>(s: Scheduler, defined: set<Name>, ps: seq<Partition>, skip: bool,
                       outer: map<Name, V>, local: map<Name, V>, r: Name)
    requires SchedulerOk(s) && Closed(s, defined) && ps != [] && PartitionsOk(s, defined, ps)
    requires r in Freed(ps[0]) && r !in s.constants && (r in outer ==> r in defined)
    ensures r !in After(SignatureOf(s, ps[0], skip, Unmet(s, ps[1..])), outer, local)
  {
    var p := ps[0];
    FreedIsNotReturned(s, defined, ps, r);
    if r in outer {
      OutputsAreNew(s, defined, p);
      assert r in PartitionInputs(s, p) && r in s.nameToNode;
    }
  }

  predicate FreedBySome(ps: seq<Partition>, r: Name) {
    exists k | 0 <= k < |ps| :: r in Freed(ps[k])
  }

  /** What some partition frees, or what nobody holds or needs any more, the caller does not hold in the end. */
  lemma {:induction false} FreedIsDropped<V>(s: Scheduler, kernel: Kernel<V>, defined: set<Name>, ps: seq<Partition>,
                                             skips: seq<bool>, outer: map<Name, V>, r: Name)
    requires SchedulerOk(s) && Closed(s, defined) && PartitionsOk(s, defined, ps) && |skips| == |ps|
    requires outer.Keys <= defined && r !in s.constants
    requires FreedBySome(ps, r) || (r !in outer && r !in Needed(s, ps))
    ensures var result := RunPartitions(s, kernel, ps, Signatures(s, ps, skips), outer);
            result.Some? ==> r !in result.value
    decreases ps
  {
    if ps != [] {
      var p, unmet := ps[0], Unmet(s, ps[1..]);
      var sig := SignatureOf(s, p, skips[0], unmet);
      if sig.inputs + sig.constants <= outer.Keys {
        var local := RunLocal(s, kernel, p, Restrict(outer, sig.inputs + sig.constants));
        if local.Some? {
          var outer' := After(sig, outer, local.value);
          ClosedAfter(s, defined, p);
          AfterIsDefined(s, defined, p, skips[0], unmet, outer, local.value);
          if r in Freed(p) {
            FreedIsGone(s, defined, ps, skips[0], outer, local.value, r);
          } else if r !in outer && r !in Needed(s, ps) {
            ReturnedIsTouched(s, defined, p, unmet);
          } else {
            FreedLater(ps, r);
          }
          FreedIsDropped(s, kernel, defined + Outputs(p), ps[1..], skips[1..], outer', r);
        }
      }
    }
  }

  lemma FreedLater(ps: seq<Partition>, r: Name)
    requires ps != [] && FreedBySome(ps, r) && r !in Freed(ps[0])
    ensures FreedBySome(ps[1..], r)
  {
    var k :| 0 <= k < |ps| && r in Freed(ps[k]);
    assert ps[1..][k - 1] == ps[k];
  }

  lemma AfterIsDefined<V>(s: Scheduler, defined: set<Name>, p: Partition, skip: bool, unmet: set<Name>,
                          outer: map<Name, V>, local: map<Name, V>)
    requires SchedulerOk(s) && Closed(s, defined) && PartitionOk(s, defined, p) && outer.Keys <= defined
    ensures After(SignatureOf(s, p, skip, unmet), outer, local).Keys <= defined + Outputs(p)
  {
    var sig := SignatureOf(s, p, skip, unmet);
    forall r | r in sig.outputs ensures r in defined + Outputs(p) {
      ReturnedIsDefined(s, defined, p, unmet, r);
    }
  }

  /** After a successful run the caller holds nothing that some partition has freed, but for constants. */
  lemma NothingFreedIsHeld<V>(s: Scheduler, kernel: Kernel<V>, ps: seq<Partition>, skips: seq<bool>,
                              arguments: map<Name, V>, r: Name)
    requires GraphOk(s, ps) && |skips| == |ps| && arguments.Keys == s.graphInputs + s.constants
    requires FreedBySome(ps, r) && r !in s.constants
    ensures var result := RunPartitions(s, kernel, ps, Signatures(s, ps, skips), arguments);
            result.Some? ==> r !in result.value
  {
    FreedIsDropped(s, kernel, s.graphInputs + s.constants, ps, skips, arguments, r);
  }

  // ----- buffers without layout -----

  /**
  A buffer with a layout is allocated, and one without is not, except for a mutation output: without a layout of its
  own it counts as allocated exactly if the buffer it mutates does.
  */
  lemma NoneLayoutCases(s: Scheduler, x: Name)
    requires Resolved(s)
    ensures x !in s.nameToBuf ==> !IsNoneLayout(s, x)
    ensures x in s.nameToBuf && !s.nameToBuf[x].noneLayout ==> !IsNoneLayout(s, x)
    ensures x in s.nameToBuf && s.nameToBuf[x].noneLayout && !s.nameToBuf[x].mutationOutput ==> IsNoneLayout(s, x)
    ensures x in s.nameToBuf && s.nameToBuf[x].noneLayout && x !in s.mutationRealName ==> IsNoneLayout(s, x)
    ensures x in s.nameToBuf && s.nameToBuf[x] == Buffer(true, true) && x in s.mutationRealName ==>
              (IsNoneLayout(s, x) <==> IsNoneLayout(s, s.mutationRealName[x]))
  {
  }

  /** A graph in which the second partition changes a buffer of the first in place; the graph's output is the change. */
  const MUTATION := Scheduler({"x"}, {}, {"alias"}, {"x", "buf", "alias"},
                              map["buf" := Buffer(false, false), "alias" := Buffer(true, true)], map["alias" := "buf"])
  const BUMPER := Node({"alias"}, {"buf"}, {"alias"}, {"x"})

  /** The partition takes the buffer itself and returns it, and frees its other input. */
  lemma MutationIsReturned(skip: bool)
    ensures SignatureOf(MUTATION, [BUMPER], skip, MUTATION.graphOutputs)
            == Signature({"buf", "x"}, {"buf"}, map["buf" := false, "x" := true], skip, {})
  {
    var p := [BUMPER];
    SingletonNames(BUMPER);
    ReadWritesExtend(p, 0);
    assert p[..1] == p && ReadWrites(p[..0]) == {};
    assert ReadWrites(p) == {"buf", "alias"} && Freed(p) == {"x"} && Outputs(p) == {"alias"};
    assert !IsNoneLayout(MUTATION, "buf") && !IsNoneLayout(MUTATION, "alias");
    assert (set x | x in ReadWrites(p) && !IsNoneLayout(MUTATION, x)) - Outputs(p) == {"buf"};
    assert RealImage(MUTATION, {"buf"}) == {"buf"};
    var inputs := PartitionInputs(MUTATION, p);
    assert inputs == {"buf", "x"};
    assert Outputs(p) * MUTATION.graphOutputs + (inputs * MUTATION.nameToNode - Freed(p)) == {"alias", "buf"};
    assert Real(MUTATION, "alias") == "buf";
    assert Returned(MUTATION, p, MUTATION.graphOutputs) == {"buf"};
  }

  /** The look-up of output nodes by name never misses. */
  lemma {:induction false} OutputsHaveNodes(s: Scheduler, defined: set<Name>, ps: seq<Partition>, skips: seq<bool>, k: nat)
    requires SchedulerOk(s) && Closed(s, defined) && PartitionsOk(s, defined, ps)
    requires |skips| == |ps| && k < |ps|
    ensures Signatures(s, ps, skips)[k].outputs <= s.nameToNode
    decreases k
  {
    ClosedAfter(s, defined, ps[0]);
    if k == 0 {
      var unmet := Unmet(s, ps[1..]);
      ReturnedIsTouched(s, defined, ps[0], unmet);
      forall r | r in Returned(s, ps[0], unmet) ensures r in s.nameToNode {
        ReturnedIsDefined(s, defined, ps[0], unmet, r);
      }
    } else {
      OutputsHaveNodes(s, defined + Outputs(ps[0]), ps[1..], skips[1..], k - 1);
    }
  }

  /** Constants have no nodes, so the look-up misses if a later partition needs a constant that this one has mutated. */
  lemma MutatedConstantMisses(s: Scheduler, p: Partition, skip: bool, unmet: set<Name>, o: Name)
    requires Resolved(s) && s.nameToNode !! s.constants
    requires o in Outputs(p) && o in unmet && Real(s, o) in s.constants && !IsNoneLayout(s, Real(s, o))
    ensures !(SignatureOf(s, p, skip, unmet).outputs <= s.nameToNode)
  {
    assert Real(s, o) in Returned(s, p, unmet);
    assert Real(s, o) in SignatureOf(s, p, skip, unmet).outputs;
  }

  /** A graph in which a buffer without layout is made in one partition and freed in the next. */
  const EXAMPLE := Scheduler({"x"}, {}, {"out"}, {"x", "tmp", "void", "out"}, map["void" := Buffer(true, false)], map[])
  const MAKER := Node({"tmp", "void"}, {"x"}, {"tmp"}, {})
  const USER := Node({"out"}, {"tmp", "void"}, {"out"}, {"tmp", "void"})

  lemma SingletonNames(n: Node)
    ensures Outputs([n]) == n.outputs && Freed([n]) == n.lastUsage && Outputs([n][..0]) == {}
  {
    OutputsExtend([n], 0);
    assert Outputs([n][..0]) == {} && Freed([n][..0]) == {};
    assert [n][..1] == [n];
  }

  lemma SingletonOk(s: Scheduler, defined: set<Name>, n: Node)
    requires NodeOk(s, defined, n)
    ensures PartitionOk(s, defined, [n])
  {
    SingletonNames(n);
    assert defined + Outputs([n][..0]) == defined;
  }

  lemma ExampleOk()
    ensures GraphOk(EXAMPLE, [[MAKER], [USER]])
  {
    SingletonNames(MAKER);
    SingletonNames(USER);
    SingletonOk(EXAMPLE, {"x"}, MAKER);
    var defined := {"x"} + Outputs([MAKER]);
    SingletonOk(EXAMPLE, defined, USER);
    assert PartitionsOk(EXAMPLE, defined + Outputs([USER]), []);
    assert [[USER]][1..] == [];
    assert PartitionsOk(EXAMPLE, defined, [[USER]]);
    assert EXAMPLE.graphInputs + EXAMPLE.constants == {"x"} && [[MAKER], [USER]][1..] == [[USER]];
    assert PartitionsOk(EXAMPLE, {"x"}, [[MAKER], [USER]]);
    assert Flatten([[MAKER], [USER]]) == [MAKER, USER] by { assert Flatten([[USER]]) == [USER]; }
    OutputsExtend([MAKER, USER], 1);
    assert [MAKER, USER][..1] == [MAKER];
  }

  /** The second partition asks for the buffer without layout, and cannot be called. */
  lemma UnallocatedFreeFails(kernel: Kernel<int>, x: int)
    ensures GraphOk(EXAMPLE, [[MAKER], [USER]])
    ensures var ps := [[MAKER], [USER]];
            RunPartitions(EXAMPLE, kernel, ps, Signatures(EXAMPLE, ps, [false, false]), map["x" := x]) == None
  {
    var ps := [[MAKER], [USER]];
    ExampleOk();
    SingletonNames(USER);
    assert "void" in Freed(ps[1]) && IsNoneLayout(EXAMPLE, "void") && "void" !in Outputs(ps[1]);
    PartitioningPreservesMeaning(EXAMPLE, kernel, ps, [false, false], map["x" := x]);
  }

  // ----- the code -----

  /** The unions over the nodes of one partition. */
  method CollectNames(partition: Partition) returns (outputNames: set<Name>, readWrites: set<Name>, toFree: set<Name>)
    ensures outputNames == Outputs(partition) && readWrites == ReadWrites(partition) && toFree == Freed(partition)
  {
    outputNames, readWrites, toFree := {}, {}, {};
    for i := 0 to |partition|
      invariant outputNames == Outputs(partition[..i]) && readWrites == ReadWrites(partition[..i])
    {
      OutputsExtend(partition, i);
      ReadWritesExtend(partition, i);
      outputNames := outputNames + partition[i].outputs;
      readWrites := readWrites + partition[i].readNames + partition[i].writeNames;
    }
    for i := 0 to |partition|
      invariant toFree == Freed(partition[..i])
    {
      OutputsExtend(partition, i);
      toFree := toFree + partition[i].lastUsage;
    }
    assert partition[..|partition|] == partition;
  }

  /** One turn of the backward loop. */
  method PartitionSignature(s: Scheduler, partition: Partition, skip: bool, unmetOutputNames: set<Name>)
    returns (signature: Signature, unmetBefore: set<Name>)
    requires Resolved(s)
    ensures signature == SignatureOf(s, partition, skip, unmetOutputNames)
    ensures unmetBefore == PartitionInputs(s, partition) + (unmetOutputNames - Returned(s, partition, unmetOutputNames))
  {
    var outputNames, readWrites, bufferNamesToFree := CollectNames(partition);
    var returnedOutputNames := outputNames * unmetOutputNames;
    var partitionInputNames := (set x | x in readWrites && !IsNoneLayout(s, x)) - outputNames;
    partitionInputNames := set x | x in partitionInputNames :: Real(s, x);

    var extraInputNames := set x | x in bufferNamesToFree - outputNames && x in s.nameToNode;
    partitionInputNames := partitionInputNames + extraInputNames;
    assert extraInputNames == (bufferNamesToFree - outputNames) * s.nameToNode;

    var inputNodes := set x | x in partitionInputNames && x in s.nameToNode;
    var inputDeallocation := map x | x in partitionInputNames && x in s.nameToNode :: x in bufferNamesToFree;

    var extraOutputNames := set x | x in partitionInputNames && x in s.nameToNode && x !in bufferNamesToFree;
    assert extraOutputNames == partitionInputNames * s.nameToNode - bufferNamesToFree;
    returnedOutputNames := returnedOutputNames + extraOutputNames;
    returnedOutputNames := set x | x in returnedOutputNames :: Real(s, x);

    var outputNodes := set x | x in returnedOutputNames && !IsNoneLayout(s, x);
    var constantNames := set x | x in partitionInputNames && x in s.constants;
    assert inputNodes == partitionInputNames * s.nameToNode && constantNames == partitionInputNames * s.constants;

    signature := Signature(inputNodes, outputNodes, inputDeallocation, skip, constantNames);
    unmetBefore := partitionInputNames + (unmetOutputNames - returnedOutputNames);
  }

  lemma SignaturesStep(s: Scheduler, p: Partition, skip: bool, ps: seq<Partition>, skips: seq<bool>)
    requires Resolved(s) && |ps| == |skips|
    ensures Signatures(s, [p] + ps, [skip] + skips)
            == [SignatureOf(s, p, skip, Unmet(s, ps))] + Signatures(s, ps, skips)
    ensures Unmet(s, [p] + ps) == PartitionInputs(s, p) + (Unmet(s, ps) - Returned(s, p, Unmet(s, ps)))
  {
    assert ([p] + ps)[1..] == ps && ([skip] + skips)[1..] == skips;
  }

  function Backwards<T>(q: seq<T>): seq<T> {
    if q == [] then [] else [q[|q| - 1]] + Backwards(q[..|q| - 1])
  }

  method GetGraphPartitionSignature(s: Scheduler, partitions: seq<Partition>, skipCudagraphs: seq<bool>)
    returns (signatures: seq<Signature>)
    requires Resolved(s)
    // The two lists are walked together from the back, as far as the shorter one goes.
    ensures var n := if |partitions| <= |skipCudagraphs| then |partitions| else |skipCudagraphs|;
            signatures == Signatures(s, partitions[|partitions| - n..], skipCudagraphs[|skipCudagraphs| - n..])
  {
    var n := if |partitions| <= |skipCudagraphs| then |partitions| else |skipCudagraphs|;
    var backwards := [];
    var unmetOutputNames := s.graphOutputs;
    ghost var ps: seq<Partition>, skips: seq<bool> := [], [];
    for j := 0 to n
      invariant ps == partitions[|partitions| - j..] && skips == skipCudagraphs[|skipCudagraphs| - j..]
      invariant unmetOutputNames == Unmet(s, ps)
      invariant Backwards(backwards) == Signatures(s, ps, skips)
    {
      var partition, skip := partitions[|partitions| - 1 - j], skipCudagraphs[|skipCudagraphs| - 1 - j];
      var signature, unmetBefore := PartitionSignature(s, partition, skip, unmetOutputNames);
      SignaturesStep(s, partition, skip, ps, skips);
      assert (backwards + [signature])[..|backwards|] == backwards;
      backwards := backwards + [signature];
      unmetOutputNames := unmetBefore;
      ps, skips := [partition] + ps, [skip] + skips;
    }
    signatures := Backwards(backwards);
  }

  lemma ReadWritesExtend(p: Partition, i: nat)
    requires i < |p|
    ensures ReadWrites(p[..i + 1]) == ReadWrites(p[..i]) + p[i].readNames + p[i].writeNames
  {
    var q := p[..i + 1];
    assert forall j | 0 <= j < i :: q[j] == p[..i][j];
    assert q[i] == p[i];
    forall x | x in ReadWrites(p[..i]) + p[i].readNames + p[i].writeNames ensures x in ReadWrites(q) {
      if x in p[i].readNames + p[i].writeNames {
        assert x in q[i].readNames + q[i].writeNames;
      } else {
        var j :| 0 <= j < i && x in p[..i][j].readNames + p[..i][j].writeNames;
        assert x in q[j].readNames + q[j].writeNames;
      }
    }
  }
}
