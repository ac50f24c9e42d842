/** Bringing the ports of saved flow nodes up to date with the current port definitions, in place. */
module PortReconciliation {
  import opened Option

  datatype Port = Port(hash: string, direction: string, side: string, title: string, portType: string,
                       minimumInputs: int, maximumInputs: int, orphaned: bool)

  /** A port as its node type defines it; a missing count is 0. */
  datatype DefaultPort = DefaultPort(direction: string, side: string, title: string, portType: string,
                                     minimumInputs: int, maximumInputs: int)

  /** Ports are told apart by label (`title`) and direction; their hashes may coincide. */
  predicate Matches(p: Port, d: DefaultPort) {
    p.title == d.title && p.direction == d.direction
  }

  predicate SamePlace(p: Port, q: Port) {
    p.title == q.title && p.direction == q.direction
  }

  predicate Present(ports: seq<Port>, d: DefaultPort) {
    exists k :: 0 <= k < |ports| && Matches(ports[k], d)
  }

  ghost predicate AllPresent(ports: seq<Port>, defaults: seq<DefaultPort>) {
    forall j :: 0 <= j < |defaults| ==> Present(ports, defaults[j])
  }

  predicate Defined(p: Port, defaults: seq<DefaultPort>) {
    exists j :: 0 <= j < |defaults| && Matches(p, defaults[j])
  }

  function NewPort(nodeHash: string, d: DefaultPort): Port {
    Port(nodeHash + "-" + d.title, d.direction, d.side, d.title, d.portType, d.minimumInputs,
         if d.maximumInputs != 0 then d.maximumInputs else 1, false)
  }

  function Completed(nodeHash: string, ports: seq<Port>, defaults: seq<DefaultPort>): seq<Port> {
    if defaults == [] then ports
    else
      var done, d := Completed(nodeHash, ports, defaults[..|defaults| - 1]), defaults[|defaults| - 1];
      if Present(done, d) then done else done + [NewPort(nodeHash, d)]
  }

  function Flag(p: Port, defaults: seq<DefaultPort>): Port {
    if Defined(p, defaults) then p else p.(orphaned := true)
  }

  function Flagged(ports: seq<Port>, defaults: seq<DefaultPort>): (r: seq<Port>)
    ensures |r| == |ports| && forall k :: 0 <= k < |r| ==> r[k] == Flag(ports[k], defaults)
  {
    if ports == [] then [] else Flagged(ports[..|ports| - 1], defaults) + [Flag(ports[|ports| - 1], defaults)]
  }

  function Reconciled(nodeHash: string, ports: seq<Port>, defaults: seq<DefaultPort>): seq<Port> {
    Flagged(Completed(nodeHash, ports, defaults), defaults)
  }

  // What the reconciled ports are

  /** The ports kept come first, as they were but for their flag; every port added is the new port of the first
      default for its place, which no port before it holds, and they are added in the order of their defaults;
      every default has a port; and a port is orphaned when no default defines it or it was so already. */
  ghost predicate IsReconciled(nodeHash: string, before: seq<Port>, defaults: seq<DefaultPort>, after: seq<Port>) {
    && |before| <= |after|
    && (forall k :: 0 <= k < |before| ==>
          after[k] == before[k].(orphaned := before[k].orphaned || FitsNone(before[k], defaults)))
    && (forall k :: |before| <= k < |after| ==> IsAddition(nodeHash, defaults, after, k))
    && InDefaultOrder(defaults, after, |before|)
    && (forall j :: 0 <= j < |defaults| ==> HasFit(after, defaults[j]))
  }

  /** The port has the label and the direction of the default. */
  ghost predicate Fits(p: Port, d: DefaultPort) {
    p.title == d.title && p.direction == d.direction
  }

  ghost predicate HasFit(ports: seq<Port>, d: DefaultPort) {
    exists k :: 0 <= k < |ports| && Fits(ports[k], d)
  }

  ghost predicate FitsNone(p: Port, defaults: seq<DefaultPort>) {
    forall j :: 0 <= j < |defaults| ==> !Fits(p, defaults[j])
  }

  /** The default's port as it is added to a node: a missing maximum is 1. */
  ghost predicate IsNewPort(p: Port, nodeHash: string, d: DefaultPort) {
    && p.hash == nodeHash + "-" + d.title
    && p.title == d.title && p.direction == d.direction && p.side == d.side && p.portType == d.portType
    && p.minimumInputs == d.minimumInputs
    && p.maximumInputs == (if d.maximumInputs == 0 then 1 else d.maximumInputs)
    && !p.orphaned
  }

  ghost predicate IsAddition(nodeHash: string, defaults: seq<DefaultPort>, ports: seq<Port>, k: nat)
    requires k < |ports|
  {
    && (exists j :: 0 <= j < |defaults| && IsNewPort(ports[k], nodeHash, defaults[j]) && FirstForPlace(defaults, j))
    && (forall i :: 0 <= i < k ==> !SamePlace(ports[i], ports[k]))
  }

  /** The ports from `from` on stand in the order of the first defaults for their places. */
  ghost predicate InDefaultOrder(defaults: seq<DefaultPort>, ports: seq<Port>, from: nat) {
    forall k, l, i, j :: from <= k < l < |ports| && PlacedBy(defaults, ports[k], i) && PlacedBy(defaults, ports[l], j) ==> i < j
  }

  ghost predicate PlacedBy(defaults: seq<DefaultPort>, p: Port, i: int) {
    0 <= i < |defaults| && Fits(p, defaults[i]) && FirstForPlace(defaults, i)
  }

  ghost predicate FirstForPlace(defaults: seq<DefaultPort>, j: nat)
    requires j < |defaults|
  {
    forall i :: 0 <= i < j ==> defaults[i].title != defaults[j].title || defaults[i].direction != defaults[j].direction
  }

  lemma {:induction false} CompletedLaws(nodeHash: string, ports: seq<Port>, defaults: seq<DefaultPort>)
    ensures ports <= Completed(nodeHash, ports, defaults)
    ensures forall k :: |ports| <= k < |Completed(nodeHash, ports, defaults)| ==>
              IsAddition(nodeHash, defaults, Completed(nodeHash, ports, defaults), k)
    ensures AllPresent(Completed(nodeHash, ports, defaults), defaults)
    ensures InDefaultOrder(defaults, Completed(nodeHash, ports, defaults), |ports|)
  {
    if defaults != [] {
      var init, d := defaults[..|defaults| - 1], defaults[|defaults| - 1];
      var done, all := Completed(nodeHash, ports, init), Completed(nodeHash, ports, defaults);
      CompletedLaws(nodeHash, ports, init);
      hide Completed;
      assert done <= all;
      OrderStep(nodeHash, init, defaults, done, |ports|);
      hide InDefaultOrder, IsNewPort;
      forall k | |ports| <= k < |all| ensures IsAddition(nodeHash, defaults, all, k) {
        if k < |done| {
          AdditionStays(nodeHash, defaults, done, all, k);
        } else {
          NewIsAddition(nodeHash, defaults, done);
        }
      }
      forall j | 0 <= j < |defaults| ensures Present(all, defaults[j]) {
        if j < |init| {
          assert Present(done, init[j]);
          var k :| 0 <= k < |done| && Matches(done[k], init[j]);
          assert Matches(all[k], defaults[j]);
        } else if !Present(done, d) {
          assert Matches(all[|done|], d);
        }
      }
    }
  }

  lemma OrderStep(nodeHash: string, init: seq<DefaultPort>, defaults: seq<DefaultPort>, done: seq<Port>, from: nat)
    requires defaults != [] && init == defaults[..|defaults| - 1]
    requires from <= |done| && InDefaultOrder(init, done, from) && AllPresent(done, init)
    requires forall k :: from <= k < |done| ==> IsAddition(nodeHash, init, done, k)
    ensures var d := defaults[|defaults| - 1];
            InDefaultOrder(defaults, if Present(done, d) then done else done + [NewPort(nodeHash, d)], from)
  {
    var d := defaults[|defaults| - 1];
    var all := if Present(done, d) then done else done + [NewPort(nodeHash, d)];
    forall k, l, i, j | from <= k < l < |all| && PlacedBy(defaults, all[k], i) && PlacedBy(defaults, all[l], j) ensures i < j {
      PlacedEarlier(nodeHash, defaults, done, k, i);
      if l < |done| {
        PlacedEarlier(nodeHash, defaults, done, l, j);
      } else {
        PlacedLast(nodeHash, defaults, done, j);
      }
    }
  }

  lemma PlacedEarlier(nodeHash: string, defaults: seq<DefaultPort>, done: seq<Port>, k: nat, i: int)
    requires defaults != [] && k < |done| && IsAddition(nodeHash, defaults[..|defaults| - 1], done, k)
    requires PlacedBy(defaults, done[k], i)
    ensures i < |defaults| - 1 && PlacedBy(defaults[..|defaults| - 1], done[k], i)
  {
    var init := defaults[..|defaults| - 1];
    var j :| 0 <= j < |init| && IsNewPort(done[k], nodeHash, init[j]) && FirstForPlace(init, j);
    assert init[j] == defaults[j];
    assert i <= j;
  }

  lemma PlacedLast(nodeHash: string, defaults: seq<DefaultPort>, done: seq<Port>, j: int)
    requires defaults != [] && !Present(done, defaults[|defaults| - 1]) && AllPresent(done, defaults[..|defaults| - 1])
    requires PlacedBy(defaults, NewPort(nodeHash, defaults[|defaults| - 1]), j)
    ensures j == |defaults| - 1
  {
    var init, d := defaults[..|defaults| - 1], defaults[|defaults| - 1];
    assert j < |init| ==> Present(done, init[j]);
  }

  lemma AdditionStays(nodeHash: string, defaults: seq<DefaultPort>, done: seq<Port>, all: seq<Port>, k: nat)
    requires defaults != [] && done <= all && k < |done| && IsAddition(nodeHash, defaults[..|defaults| - 1], done, k)
    ensures IsAddition(nodeHash, defaults, all, k)
  {
    var init := defaults[..|defaults| - 1];
    hide IsNewPort;
    var j :| 0 <= j < |init| && IsNewPort(done[k], nodeHash, init[j]) && FirstForPlace(init, j);
    assert FirstForPlace(defaults, j) && defaults[j] == init[j];
  }

  lemma NewIsAddition(nodeHash: string, defaults: seq<DefaultPort>, done: seq<Port>)
    requires defaults != [] && !Present(done, defaults[|defaults| - 1])
    requires AllPresent(done, defaults[..|defaults| - 1])
    ensures IsAddition(nodeHash, defaults, done + [NewPort(nodeHash, defaults[|defaults| - 1])], |done|)
  {
    var last := |defaults| - 1;
    var d := defaults[last];
    var all := done + [NewPort(nodeHash, d)];
    assert FirstForPlace(defaults, last) by {
      forall i | 0 <= i < last ensures defaults[i].title != d.title || defaults[i].direction != d.direction {
        assert Present(done, defaults[..last][i]);
        var k :| 0 <= k < |done| && Matches(done[k], defaults[i]);
        assert !Matches(done[k], d);
      }
    }
    assert IsNewPort(all[|done|], nodeHash, d);
    forall i | 0 <= i < |done| ensures !SamePlace(all[i], all[|done|]) {
      assert !Matches(done[i], d);
    }
  }

  lemma AdditionDefined(nodeHash: string, defaults: seq<DefaultPort>, ports: seq<Port>, k: nat)
    requires k < |ports| && IsAddition(nodeHash, defaults, ports, k)
    ensures Defined(ports[k], defaults)
  {
    var j :| 0 <= j < |defaults| && IsNewPort(ports[k], nodeHash, defaults[j]) && FirstForPlace(defaults, j);
    assert Matches(ports[k], defaults[j]);
  }

  lemma KeptPorts(nodeHash: string, ports: seq<Port>, defaults: seq<DefaultPort>, all: seq<Port>)
    requires all == Reconciled(nodeHash, ports, defaults) && ports <= Completed(nodeHash, ports, defaults)
    ensures |ports| <= |all|
    ensures forall k :: 0 <= k < |ports| ==>
              all[k] == ports[k].(orphaned := ports[k].orphaned || FitsNone(ports[k], defaults))
  {
    hide Completed, FitsNone;
    forall k | 0 <= k < |ports|
      ensures all[k] == ports[k].(orphaned := ports[k].orphaned || FitsNone(ports[k], defaults))
    {
      FlagIs(ports[k], defaults);
    }
  }

  lemma AddedPorts(nodeHash: string, ports: seq<Port>, defaults: seq<DefaultPort>, done: seq<Port>, all: seq<Port>)
    requires all == Flagged(done, defaults) && |ports| <= |done|
    requires forall k :: |ports| <= k < |done| ==> IsAddition(nodeHash, defaults, done, k)
    ensures forall k :: |ports| <= k < |all| ==> IsAddition(nodeHash, defaults, all, k)
  {
    hide Defined, IsAddition;
    forall k | |ports| <= k < |all| ensures IsAddition(nodeHash, defaults, all, k) {
      AdditionDefined(nodeHash, defaults, done, k);
      assert all[k] == Flag(done[k], defaults) == done[k];
      FlagKeepsAddition(nodeHash, defaults, done, all, k);
    }
  }

  lemma PresentPorts(defaults: seq<DefaultPort>, done: seq<Port>, all: seq<Port>)
    requires AllPresent(done, defaults) && |all| == |done| && forall k :: 0 <= k < |all| ==> SamePlace(all[k], done[k])
    ensures AllPresent(all, defaults)
    ensures forall j :: 0 <= j < |defaults| ==> HasFit(all, defaults[j])
  {
    forall j | 0 <= j < |defaults| ensures Present(all, defaults[j]) && HasFit(all, defaults[j]) {
      assert Present(done, defaults[j]);
      var k :| 0 <= k < |done| && Matches(done[k], defaults[j]);
      assert SamePlace(all[k], done[k]);
      assert Matches(all[k], defaults[j]) && Fits(all[k], defaults[j]);
    }
  }

  /** Reconciling does what it should for any saved ports and any defaults. */
  lemma ReconciledIs(nodeHash: string, ports: seq<Port>, defaults: seq<DefaultPort>)
    ensures IsReconciled(nodeHash, ports, defaults, Reconciled(nodeHash, ports, defaults))
    ensures AllPresent(Reconciled(nodeHash, ports, defaults), defaults)
  {
    var done, all := Completed(nodeHash, ports, defaults), Reconciled(nodeHash, ports, defaults);
    CompletedLaws(nodeHash, ports, defaults);
    KeptPorts(nodeHash, ports, defaults, all);
    AddedPorts(nodeHash, ports, defaults, done, all);
    assert forall k :: 0 <= k < |all| ==> SamePlace(all[k], done[k]);
    FlagKeepsOrder(defaults, done, all, |ports|);
    PresentPorts(defaults, done, all);
  }

  lemma FlagIs(p: Port, defaults: seq<DefaultPort>)
    ensures Flag(p, defaults) == p.(orphaned := p.orphaned || FitsNone(p, defaults))
  {
    if Defined(p, defaults) {
      var j :| 0 <= j < |defaults| && Matches(p, defaults[j]);
      assert Fits(p, defaults[j]);
    } else {
      forall j | 0 <= j < |defaults| ensures !Fits(p, defaults[j]) {
        assert !Matches(p, defaults[j]);
      }
    }
  }

  lemma FlagKeepsOrder(defaults: seq<DefaultPort>, done: seq<Port>, all: seq<Port>, from: nat)
    requires InDefaultOrder(defaults, done, from) && |all| == |done|
    requires forall k :: 0 <= k < |all| ==> SamePlace(all[k], done[k])
    ensures InDefaultOrder(defaults, all, from)
  {
    forall k, l, i, j | from <= k < l < |all| && PlacedBy(defaults, all[k], i) && PlacedBy(defaults, all[l], j) ensures i < j {
      assert SamePlace(all[k], done[k]) && SamePlace(all[l], done[l]);
      assert PlacedBy(defaults, done[k], i) && PlacedBy(defaults, done[l], j);
    }
  }

  lemma FlagKeepsAddition(nodeHash: string, defaults: seq<DefaultPort>, done: seq<Port>, all: seq<Port>, k: nat)
    requires |all| == |done| && k < |done| && all[k] == done[k] && IsAddition(nodeHash, defaults, done, k)
    requires forall i :: 0 <= i < |done| ==> SamePlace(all[i], done[i])
    ensures IsAddition(nodeHash, defaults, all, k)
  {
    hide IsNewPort;
    forall i | 0 <= i < k ensures !SamePlace(all[i], all[k]) {
      assert !SamePlace(done[i], done[k]);
    }
  }

  lemma {:induction false} CompleteAlready(nodeHash: string, ports: seq<Port>, defaults: seq<DefaultPort>)
    requires AllPresent(ports, defaults)
    ensures Completed(nodeHash, ports, defaults) == ports
  {
    if defaults != [] {
      var init := defaults[..|defaults| - 1];
      assert forall j :: 0 <= j < |init| ==> init[j] == defaults[j];
      CompleteAlready(nodeHash, ports, init);
    }
  }

  /** Reconciling twice is reconciling once. */
  lemma ReconcileIdempotent(nodeHash: string, ports: seq<Port>, defaults: seq<DefaultPort>)
    ensures Reconciled(nodeHash, Reconciled(nodeHash, ports, defaults), defaults) == Reconciled(nodeHash, ports, defaults)
  {
    var once := Reconciled(nodeHash, ports, defaults);
    ReconciledIs(nodeHash, ports, defaults);
    CompleteAlready(nodeHash, once, defaults);
    var done := Completed(nodeHash, ports, defaults);
    hide Completed;
    forall k | 0 <= k < |once| ensures Flag(once[k], defaults) == once[k] {
      assert once[k] == Flag(done[k], defaults);
      assert Defined(once[k], defaults) <==> Defined(done[k], defaults) by {
        FlagKeepsPlace(done[k], defaults);
      }
    }
  }

  lemma FlagKeepsPlace(p: Port, defaults: seq<DefaultPort>)
    ensures Defined(Flag(p, defaults), defaults) <==> Defined(p, defaults)
  {
    forall j | 0 <= j < |defaults| ensures Matches(Flag(p, defaults), defaults[j]) <==> Matches(p, defaults[j]) {}
  }

  // In place

  class FlowNode {
    const hash: string
    const nodeType: string
    /** None when the saved node has no array of ports. */
    var ports: Option<seq<Port>>

    constructor (hash: string, nodeType: string, ports: Option<seq<Port>>)
      ensures this.hash == hash && this.nodeType == nodeType && this.ports == ports
    {
      this.hash, this.nodeType, this.ports := hash, nodeType, ports;
    }

    method AddMissing(defaults: seq<DefaultPort>)
      requires ports.Some?
      modifies this
      ensures ports == Some(Completed(hash, old(ports.value), defaults))
    {
      hide Present;
      for j := 0 to |defaults|
        invariant ports == Some(Completed(hash, old(ports.value), defaults[..j]))
      {
        assert defaults[..j + 1][..j] == defaults[..j];
        var exists' := HasPort(ports.value, defaults[j]);
        if !exists' {
          ports := Some(ports.value + [NewPort(hash, defaults[j])]);
        }
      }
      assert defaults[..|defaults|] == defaults;
    }

    method FlagOrphans(defaults: seq<DefaultPort>)
      requires ports.Some?
      modifies this
      ensures ports == Some(Flagged(old(ports.value), defaults))
    {
      hide Defined;
      var n := |ports.value|;
      for k := 0 to n
        invariant ports.Some? && |ports.value| == n
        invariant forall i :: 0 <= i < n ==>
                    ports.value[i] == if i < k then Flag(old(ports.value)[i], defaults) else old(ports.value)[i]
      {
        var found := HasDefault(ports.value[k], defaults);
        if !found {
          ports := Some(ports.value[k := ports.value[k].(orphaned := true)]);
        }
      }
      assert ports.value == Flagged(old(ports.value), defaults);
    }
  }

  method HasPort(ports: seq<Port>, d: DefaultPort) returns (found: bool)
    ensures found <==> Present(ports, d)
  {
    found := false;
    for k := 0 to |ports|
      invariant !found && forall i :: 0 <= i < k ==> !Matches(ports[i], d)
    {
      if Matches(ports[k], d) {
        return true;
      }
    }
  }

  method HasDefault(p: Port, defaults: seq<DefaultPort>) returns (found: bool)
    ensures found <==> Defined(p, defaults)
  {
    found := false;
    for j := 0 to |defaults|
      invariant !found && forall i :: 0 <= i < j ==> !Matches(p, defaults[i])
    {
      if Matches(p, defaults[j]) {
        return true;
      }
    }
  }

  /** The ports a node ends up with: unchanged when its type is unknown, defines no ports, or it has none saved. */
  function Target(hash: string, nodeType: string, ports: Option<seq<Port>>,
                  nodeTypes: map<string, Option<seq<DefaultPort>>>): Option<seq<Port>> {
    if nodeType !in nodeTypes || nodeTypes[nodeType].None? || ports.None? then ports
    else Some(Reconciled(hash, ports.value, nodeTypes[nodeType].value))
  }

  lemma TargetIdempotent(hash: string, nodeType: string, ports: Option<seq<Port>>,
                         nodeTypes: map<string, Option<seq<DefaultPort>>>)
    ensures Target(hash, nodeType, Target(hash, nodeType, ports, nodeTypes), nodeTypes)
            == Target(hash, nodeType, ports, nodeTypes)
  {
    if nodeType in nodeTypes && nodeTypes[nodeType].Some? && ports.Some? {
      ReconcileIdempotent(hash, ports.value, nodeTypes[nodeType].value);
    }
  }

  /** Every listed node is brought up to date, a node listed twice no differently from one listed once. */
  method ReconcileNodePorts(nodes: seq<FlowNode>, nodeTypes: map<string, Option<seq<DefaultPort>>>)
    modifies set node | node in nodes
    ensures forall node :: node in nodes && HasDefinition(node.nodeType, nodeTypes) && old(node.ports).Some? ==>
              && node.ports.Some?
              && IsReconciled(node.hash, old(node.ports).value, nodeTypes[node.nodeType].value, node.ports.value)
    ensures forall node :: node in nodes && !(HasDefinition(node.nodeType, nodeTypes) && old(node.ports).Some?) ==>
              node.ports == old(node.ports)
    ensures forall node :: node in nodes ==>
              node.ports == Target(node.hash, node.nodeType, old(node.ports), nodeTypes)
  {
    hide Reconciled, Completed, Flagged, Target, IsReconciled;
    for i := 0 to |nodes|
      invariant forall node :: node in nodes ==>
                  node.ports == if node in nodes[..i] then Target(node.hash, node.nodeType, old(node.ports), nodeTypes)
                                else old(node.ports)
    {
      var node := nodes[i];
      assert nodes[..i + 1] == nodes[..i] + [node];
      TargetIdempotent(node.hash, node.nodeType, old(node.ports), nodeTypes);
      ReconcileNode(node, nodeTypes);
    }
    assert nodes[..|nodes|] == nodes;
    forall node | node in nodes ensures IsTarget(node.hash, node.nodeType, old(node.ports), nodeTypes, node.ports) {
      TargetIs(node.hash, node.nodeType, old(node.ports), nodeTypes);
    }
  }

  /** The node's type is known and defines ports. */
  ghost predicate HasDefinition(nodeType: string, nodeTypes: map<string, Option<seq<DefaultPort>>>) {
    nodeType in nodeTypes && nodeTypes[nodeType].Some?
  }

  ghost predicate IsTarget(hash: string, nodeType: string, before: Option<seq<Port>>,
                           nodeTypes: map<string, Option<seq<DefaultPort>>>, after: Option<seq<Port>>) {
    if HasDefinition(nodeType, nodeTypes) && before.Some?
    then after.Some? && IsReconciled(hash, before.value, nodeTypes[nodeType].value, after.value)
    else after == before
  }

  lemma TargetIs(hash: string, nodeType: string, ports: Option<seq<Port>>,
                 nodeTypes: map<string, Option<seq<DefaultPort>>>)
    ensures IsTarget(hash, nodeType, ports, nodeTypes, Target(hash, nodeType, ports, nodeTypes))
  {
    if HasDefinition(nodeType, nodeTypes) && ports.Some? {
      ReconciledIs(hash, ports.value, nodeTypes[nodeType].value);
    }
  }

  method ReconcileNode(node: FlowNode, nodeTypes: map<string, Option<seq<DefaultPort>>>)
    modifies node
    ensures node.ports == Target(node.hash, node.nodeType, old(node.ports), nodeTypes)
  {
    if node.nodeType !in nodeTypes || nodeTypes[node.nodeType].None? || node.ports.None? {
      return;
    }
    node.AddMissing(nodeTypes[node.nodeType].value);
    node.FlagOrphans(nodeTypes[node.nodeType].value);
  }
}
