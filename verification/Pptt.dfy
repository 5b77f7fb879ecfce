/** build_pptt (aml-build.c): a sorted CPU list becomes a flat table of processor hierarchy nodes
    that point at their parents by byte offset (section 5.2.29 of ACPI 6.3). */
module Pptt {
  import opened Bytes

  datatype Cpu = Cpu(socket: u32, cluster: u32, core: u32)

  /** Whether cluster nodes are wanted, and whether cores have more than one thread. */
  datatype Config = Config(clusters: bool, threads: bool)

  /** A processor hierarchy node without private resources. */
  datatype Node = Node(flags: byte, parent: nat, id: u32)

  const PACKAGE: byte := 1
  const CONTAINER: byte := 0
  const CORE_LEAF: byte := 2 + 8
  const THREAD_LEAF: byte := 2 + 4 + 8

  predicate IsLeaf(n: Node) { n.flags / 8 % 2 == 1 }

  /** The table header comes first, and every node takes 20 bytes. */
  function Offset(i: nat): nat { 36 + 20 * i }

  /** The local variables of build_pptt and the nodes written so far. */
  datatype State = State(socketId: int, clusterId: int, coreId: int,
                         socketOffset: nat, clusterOffset: nat, coreOffset: nat, nodes: seq<Node>)

  const START: State := State(-1, -1, -1, 0, 0, 0, [])

  // ----- the loop body, one level at a time; None where an assertion fires -----

  function SocketStep(s: State, cpu: Cpu): Option<State> {
    if cpu.socket == s.socketId then Some(s)
    else if cpu.socket < s.socketId then None
    else Some(State(cpu.socket, -1, -1, Offset(|s.nodes|), s.clusterOffset, s.coreOffset,
                    s.nodes + [Node(PACKAGE, 0, cpu.socket)]))
  }

  function ClusterStep(s: State, cpu: Cpu, config: Config): Option<State> {
    if !config.clusters then Some(s.(clusterOffset := s.socketOffset))
    else if cpu.cluster == s.clusterId then Some(s)
    else if cpu.cluster < s.clusterId then None
    else Some(s.(clusterId := cpu.cluster, coreId := -1, clusterOffset := Offset(|s.nodes|),
                 nodes := s.nodes + [Node(CONTAINER, s.socketOffset, cpu.cluster)]))
  }

  function CoreStep(s: State, cpu: Cpu, config: Config): Option<State> {
    if !config.threads || cpu.core == s.coreId then Some(s)
    else if cpu.core < s.coreId then None
    else Some(s.(coreId := cpu.core, coreOffset := Offset(|s.nodes|),
                 nodes := s.nodes + [Node(CONTAINER, s.clusterOffset, cpu.core)]))
  }

  function LeafStep(s: State, n: u32, config: Config): State {
    s.(nodes := s.nodes + [if config.threads then Node(THREAD_LEAF, s.coreOffset, n) else Node(CORE_LEAF,
          s.clusterOffset, n)])
  }

  function Step(s: State, cpu: Cpu, n: u32, config: Config): Option<State> {
    match SocketStep(s, cpu)
    case None => None
    case Some(a) =>
      match ClusterStep(a, cpu, config)
      case None => None
      case Some(b) =>
        match CoreStep(b, cpu, config) case None => None case Some(c) => Some(LeafStep(c, n, config))
  }

  function Run(cpus: seq<Cpu>, config: Config): Option<State>
    requires |cpus| <= U32_MAX
  {
    if cpus == [] then Some(START)
    else
      match Run(cpus[..|cpus| - 1], config)
      case None => None
      case Some(s) => Step(s, cpus[|cpus| - 1], |cpus| - 1, config)
  }

  // ----- when the assertions hold -----

  /** Lexicographic order on the ids that are tracked. */
  predicate NotAbove(a: Cpu, b: Cpu, config: Config) {
    a.socket < b.socket ||
    (a.socket == b.socket &&
     (if config.clusters then a.cluster < b.cluster || (a.cluster == b.cluster && CoreNotAbove(a, b, config))
      else CoreNotAbove(a, b, config)))
  }

  predicate CoreNotAbove(a: Cpu, b: Cpu, config: Config) { !config.threads || a.core <= b.core }

  predicate Sorted(cpus: seq<Cpu>, config: Config) {
    forall n :: 0 < n < |cpus| ==> NotAbove(cpus[n - 1], cpus[n], config)
  }

  /** After a CPU, the tracked ids are that CPU's. */
  predicate Tracks(s: State, cpu: Cpu, config: Config) {
    s.socketId == cpu.socket
    && s.clusterId == (if config.clusters then cpu.cluster else -1)
    && s.coreId == (if config.threads then cpu.core else -1)
  }

  /** The assertions of build_pptt hold exactly for the CPU lists sorted by the tracked ids. */
  lemma {:induction false} AssertionsHoldIffSorted(cpus: seq<Cpu>, config: Config)
    requires |cpus| <= U32_MAX
    ensures Run(cpus, config).Some? <==> Sorted(cpus, config)
    ensures Run(cpus, config).Some? && cpus != [] ==> Tracks(Run(cpus, config).value, cpus[|cpus| - 1], config)
  {
    if cpus != [] {
      var before, k := cpus[..|cpus| - 1], |cpus| - 1;
      AssertionsHoldIffSorted(before, config);
      assert Sorted(cpus, config) <==> Sorted(before, config) && (k > 0 ==> NotAbove(cpus[k - 1], cpus[k], config));
    }
  }

  // ----- labels: the ids from the package down to a node -----

  /** The ids a CPU is filed under. */
  function Tracked(cpu: Cpu, config: Config): seq<u32> {
    [cpu.socket] + (if config.clusters then [cpu.cluster] else []) + (if config.threads then [cpu.core] else [])
  }

  /** The nodes carry these labels: a package has one id and no parent; any other node points at
      an earlier node whose label is its own less the last id. */
  ghost predicate Linked(nodes: seq<Node>, labels: seq<seq<u32>>) {
    |nodes| == |labels| && forall i :: 0 <= i < |nodes| ==> LinkedAt(nodes, labels, i)
  }

  ghost predicate LinkedAt(nodes: seq<Node>, labels: seq<seq<u32>>, i: nat)
    requires i < |nodes| && |nodes| == |labels|
  {
    var path := labels[i];
    path != [] && nodes[i].id == path[|path| - 1]
    && (|path| == 1 <==> nodes[i].flags == PACKAGE)
    && if |path| == 1 then nodes[i].parent == 0
       else exists j: nat :: j < i && nodes[i].parent == Offset(j) && labels[j] == path[..|path| - 1]
             && !IsLeaf(nodes[j])
  }

  lemma LinkedSnoc(nodes: seq<Node>, labels: seq<seq<u32>>, node: Node, path: seq<u32>, j: nat)
    requires Linked(nodes, labels)
    requires path != [] && node.id == path[|path| - 1] && (|path| == 1 <==> node.flags == PACKAGE)
    requires if |path| == 1 then node.parent == 0
             else j < |nodes| && node.parent == Offset(j) && labels[j] == path[..|path| - 1] && !IsLeaf(nodes[j])
    ensures Linked(nodes + [node], labels + [path])
  {
    var nodes', labels' := nodes + [node], labels + [path];
    forall i | 0 <= i < |nodes'|
      ensures LinkedAt(nodes', labels', i)
    {
      if i < |nodes| {
        assert LinkedAt(nodes, labels, i);
        if |labels[i]| != 1 {
          var k: nat :| k < i && nodes[i].parent == Offset(k) && labels[k] == labels[i][..|labels[i]| - 1]
                && !IsLeaf(nodes[k]);
          assert k < i && nodes'[i].parent == Offset(k) && labels'[k] == labels'[i][..|labels'[i]| - 1]
                && !IsLeaf(nodes'[k]);
        }
      } else if |path| != 1 {
        assert j < i && nodes'[i].parent == Offset(j) && labels'[j] == labels'[i][..|labels'[i]| - 1]
              && !IsLeaf(nodes'[j]);
      }
    }
  }

  /** The ids met on the way from a node to its package, following the Parent offsets. */
  function Walk(nodes: seq<Node>, i: nat): seq<u32>
    requires i < |nodes|
  {
    var p := nodes[i].parent;
    (if nodes[i].flags != PACKAGE && p >= 36 && (p - 36) % 20 == 0 && (p - 36) / 20 < i then Walk(nodes, (p - 36) / 20)
     else []) + [nodes[i].id]
  }

  lemma OffsetIndex(j: nat)
    ensures Offset(j) >= 36 && (Offset(j) - 36) % 20 == 0 && (Offset(j) - 36) / 20 == j
  {
  }

  lemma WalkStep(nodes: seq<Node>, i: nat, j: nat)
    requires j < i < |nodes| && nodes[i].flags != PACKAGE && nodes[i].parent == Offset(j)
    ensures Walk(nodes, i) == Walk(nodes, j) + [nodes[i].id]
  {
    hide Offset;
    OffsetIndex(j);
  }

  lemma WalkPackage(nodes: seq<Node>, i: nat)
    requires i < |nodes| && nodes[i].flags == PACKAGE
    ensures Walk(nodes, i) == [nodes[i].id]
  {
  }

  /** Following the Parent offsets spells the label. */
  lemma {:induction false} WalkIsLabel(nodes: seq<Node>, labels: seq<seq<u32>>, i: nat)
    requires Linked(nodes, labels) && i < |nodes|
    ensures Walk(nodes, i) == labels[i]
  {
    hide Offset, Walk;
    assert LinkedAt(nodes, labels, i);
    var path := labels[i];
    if |path| != 1 {
      var j: nat :| j < i && nodes[i].parent == Offset(j) && labels[j] == path[..|path| - 1] && !IsLeaf(nodes[j]);
      WalkStep(nodes, i, j);
      WalkIsLabel(nodes, labels, j);
      assert path == path[..|path| - 1] + [path[|path| - 1]];
    } else {
      WalkPackage(nodes, i);
      assert path == [path[0]];
    }
  }

  // ----- the invariant -----

  /** A container with this label stands at this offset. */
  ghost predicate At(nodes: seq<Node>, labels: seq<seq<u32>>, offset: nat, path: seq<u32>)
    requires |nodes| == |labels|
  {
    exists j: nat :: j < |nodes| && offset == Offset(j) && labels[j] == path && !IsLeaf(nodes[j])
  }

  /** The processor ids of the leaves, in table order. */
  function LeafIds(nodes: seq<Node>): seq<u32> {
    if nodes == [] then []
    else LeafIds(nodes[..|nodes| - 1]) + if IsLeaf(nodes[|nodes| - 1]) then [nodes[|nodes| - 1].id] else []
  }

  function Iota(n: nat): (r: seq<nat>)
    ensures |r| == n && forall i :: 0 <= i < n ==> r[i] == i
  {
    seq(n, i => i)
  }

  ghost predicate ContainerFor(path: seq<u32>, cpus: seq<Cpu>, config: Config) {
    exists m: nat :: m < |cpus| && path <= Tracked(cpus[m], config)
  }

  ghost predicate Distinct(nodes: seq<Node>, labels: seq<seq<u32>>)
    requires |nodes| == |labels|
  {
    forall i, j :: 0 <= i < j < |nodes| && !IsLeaf(nodes[i]) && !IsLeaf(nodes[j]) ==> labels[i] != labels[j]
  }

  ghost predicate Fresh(nodes: seq<Node>, labels: seq<seq<u32>>, path: seq<u32>)
    requires |nodes| == |labels|
  {
    forall i :: 0 <= i < |nodes| && !IsLeaf(nodes[i]) ==> labels[i] != path
  }

  /** Nodes and labels for the leaves of the first `n` CPUs and containers of CPUs in the list. */
  ghost predicate Good(nodes: seq<Node>, labels: seq<seq<u32>>, cpus: seq<Cpu>, n: nat, config: Config) {
    && n <= |cpus| && Linked(nodes, labels) && Distinct(nodes, labels) && LeafIds(nodes) == Iota(n)
    && (forall i :: 0 <= i < |nodes| && IsLeaf(nodes[i]) ==>
          nodes[i].id < n && labels[i] == Tracked(cpus[nodes[i].id], config) + [nodes[i].id])
    && (forall i :: 0 <= i < |nodes| && !IsLeaf(nodes[i]) ==> ContainerFor(labels[i], cpus, config))
  }

  /** A CPU more may be considered. */
  lemma GoodGrows(nodes: seq<Node>, labels: seq<seq<u32>>, cpus: seq<Cpu>, config: Config, cpu: Cpu)
    requires Good(nodes, labels, cpus, |cpus|, config)
    ensures Good(nodes, labels, cpus + [cpu], |cpus|, config)
  {
    forall i | 0 <= i < |nodes| && !IsLeaf(nodes[i])
      ensures ContainerFor(labels[i], cpus + [cpu], config)
    {
      var m: nat :| m < |cpus| && labels[i] <= Tracked(cpus[m], config);
      assert labels[i] <= Tracked((cpus + [cpu])[m], config);
    }
  }

  lemma AddContainer(nodes: seq<Node>, labels: seq<seq<u32>>, cpus: seq<Cpu>, n: nat, config: Config,
                     node: Node, path: seq<u32>)
    requires Good(nodes, labels, cpus, n, config) && cpus != []
    requires path != [] && path <= Tracked(cpus[|cpus| - 1], config) && Fresh(nodes, labels, path)
    requires !IsLeaf(node) && node.id == path[|path| - 1] && (|path| == 1 <==> node.flags == PACKAGE)
    requires if |path| == 1 then node.parent == 0 else At(nodes, labels, node.parent, path[..|path| - 1])
    ensures Good(nodes + [node], labels + [path], cpus, n, config)
    ensures At(nodes + [node], labels + [path], Offset(|nodes|), path)
  {
    var j: nat := 0;
    if |path| != 1 {
      j :| j < |nodes| && node.parent == Offset(j) && labels[j] == path[..|path| - 1] && !IsLeaf(nodes[j]);
    }
    LinkedSnoc(nodes, labels, node, path, j);
    assert (nodes + [node])[..|nodes|] == nodes;
    assert ContainerFor(path, cpus, config);
    assert (nodes + [node])[|nodes|] == node && (labels + [path])[|nodes|] == path;
  }

  lemma AtSnoc(nodes: seq<Node>, labels: seq<seq<u32>>, node: Node, path: seq<u32>, offset: nat, at: seq<u32>)
    requires |nodes| == |labels| && At(nodes, labels, offset, at)
    ensures At(nodes + [node], labels + [path], offset, at)
  {
    var j: nat :| j < |nodes| && offset == Offset(j) && labels[j] == at && !IsLeaf(nodes[j]);
    assert (nodes + [node])[j] == nodes[j] && (labels + [path])[j] == labels[j];
  }

  lemma AddLeaf(nodes: seq<Node>, labels: seq<seq<u32>>, cpus: seq<Cpu>, config: Config, node: Node)
    requires cpus != [] && |cpus| <= U32_MAX && Good(nodes, labels, cpus, |cpus| - 1, config)
    requires IsLeaf(node) && node.flags != PACKAGE && node.id == |cpus| - 1
    requires At(nodes, labels, node.parent, Tracked(cpus[|cpus| - 1], config))
    ensures Good(nodes + [node], labels + [Tracked(cpus[|cpus| - 1], config) + [node.id]], cpus, |cpus|, config)
    ensures IsLeaf((nodes + [node])[|nodes|])
  {
    var tracked := Tracked(cpus[|cpus| - 1], config);
    var path := tracked + [node.id];
    assert path[..|path| - 1] == tracked;
    var j: nat :| j < |nodes| && node.parent == Offset(j) && labels[j] == tracked && !IsLeaf(nodes[j]);
    LinkedSnoc(nodes, labels, node, path, j);
    assert (nodes + [node])[..|nodes|] == nodes;
    assert Iota(|cpus|) == Iota(|cpus| - 1) + [|cpus| - 1];
  }

  // ----- freshness follows from the order -----

  lemma {:induction false} SortedTransitive(cpus: seq<Cpu>, config: Config, m: nat, k: nat)
    requires Sorted(cpus, config) && m <= k < |cpus|
    ensures NotAbove(cpus[m], cpus[k], config)
    decreases k
  {
    if m < k {
      SortedTransitive(cpus, config, m, k - 1);
      assert NotAbove(cpus[k - 1], cpus[k], config);
    }
  }

  /** No container of the earlier CPUs carries a label that is above the last of them. */
  lemma FreshAbove(nodes: seq<Node>, labels: seq<seq<u32>>, cpus: seq<Cpu>, config: Config, path: seq<u32>)
    requires Good(nodes, labels, cpus, |cpus|, config) && Sorted(cpus, config)
    requires cpus == [] || forall earlier | NotAbove(earlier, cpus[|cpus| - 1],
          config) :: !(path <= Tracked(earlier, config))
    ensures Fresh(nodes, labels, path)
  {
    forall i | 0 <= i < |nodes| && !IsLeaf(nodes[i])
      ensures labels[i] != path
    {
      var m: nat :| m < |cpus| && labels[i] <= Tracked(cpus[m], config);
      SortedTransitive(cpus, config, m, |cpus| - 1);
    }
  }

  lemma FreshSnoc(nodes: seq<Node>, labels: seq<seq<u32>>, node: Node, path: seq<u32>, path': seq<u32>)
    requires |nodes| == |labels| && Fresh(nodes, labels, path') && path != path'
    ensures Fresh(nodes + [node], labels + [path], path')
  {
  }

  /** The ids down to the level above the threads. */
  function ClusterPath(cpu: Cpu, config: Config): seq<u32> {
    [cpu.socket] + if config.clusters then [cpu.cluster] else []
  }

  /** Where the containers of the current CPU stand. */
  ghost predicate Filed(s: State, labels: seq<seq<u32>>, cpu: Cpu, config: Config) {
    && |s.nodes| == |labels| && Tracks(s, cpu, config)
    && At(s.nodes, labels, s.socketOffset, [cpu.socket])
    && (config.clusters ==> At(s.nodes, labels, s.clusterOffset, ClusterPath(cpu, config)))
    && (config.threads ==> At(s.nodes, labels, s.coreOffset, Tracked(cpu, config)))
  }

  /** A container is either the current one or has not been written yet. */
  ghost predicate CurrentOrFresh(nodes: seq<Node>, labels: seq<seq<u32>>, current: bool, offset: nat, path: seq<u32>)
    requires |nodes| == |labels|
  {
    if current then At(nodes, labels, offset, path) else Fresh(nodes, labels, path)
  }

  /** What the cluster and core levels can rely on. */
  ghost predicate Pending(s: State, labels: seq<seq<u32>>, cpu: Cpu, config: Config) {
    && |s.nodes| == |labels|
    && At(s.nodes, labels, s.socketOffset, [cpu.socket])
    && (config.clusters ==> CurrentOrFresh(s.nodes, labels, s.clusterId == cpu.cluster, s.clusterOffset,
          ClusterPath(cpu, config)))
    && (config.threads ==>
          CurrentOrFresh(s.nodes, labels, (config.clusters ==> s.clusterId == cpu.cluster)
                && s.coreId == cpu.core, s.coreOffset,
                         Tracked(cpu, config)))
  }

  /** What the core level can rely on. */
  ghost predicate PendingCore(s: State, labels: seq<seq<u32>>, cpu: Cpu, config: Config) {
    && |s.nodes| == |labels|
    && At(s.nodes, labels, s.clusterOffset, ClusterPath(cpu, config))
    && (config.threads ==> CurrentOrFresh(s.nodes, labels, s.coreId == cpu.core, s.coreOffset, Tracked(cpu, config)))
  }

  /** Which labels of the next CPU are above everything filed so far. */
  lemma NextLabels(nodes: seq<Node>, labels: seq<seq<u32>>, cpus: seq<Cpu>, config: Config, cpu: Cpu)
    requires Good(nodes, labels, cpus, |cpus|, config) && Sorted(cpus + [cpu], config)
    ensures Sorted(cpus, config)
    ensures var new_ := cpus == [] || cpus[|cpus| - 1].socket != cpu.socket;
            var newCluster := new_ || (config.clusters && cpus[|cpus| - 1].cluster != cpu.cluster);
            var newCore := newCluster || cpus[|cpus| - 1].core != cpu.core;
            (new_ ==> Fresh(nodes, labels, [cpu.socket]))
            && (config.clusters && newCluster ==> Fresh(nodes, labels, ClusterPath(cpu, config)))
            && (config.threads && newCore ==> Fresh(nodes, labels, Tracked(cpu, config)))
  {
    var all := cpus + [cpu];
    forall n | 0 < n < |cpus|
      ensures NotAbove(cpus[n - 1], cpus[n], config)
    {
      assert NotAbove(all[n - 1], all[n], config);
    }
    if cpus != [] {
      var last := cpus[|cpus| - 1];
      assert NotAbove(all[|cpus| - 1], all[|cpus|], config);
      forall other
        ensures [cpu.socket] <= Tracked(other, config) ==> cpu.socket == other.socket
        ensures config.clusters && ClusterPath(cpu, config) <= Tracked(other, config) ==>
                  cpu.socket == other.socket && cpu.cluster == other.cluster
      {
        PrefixIds(cpu, other, config);
      }
      if last.socket != cpu.socket {
        FreshAbove(nodes, labels, cpus, config, [cpu.socket]);
      }
      if config.clusters && (last.socket != cpu.socket || last.cluster != cpu.cluster) {
        FreshAbove(nodes, labels, cpus, config, ClusterPath(cpu, config));
      }
      if config.threads && (last.socket != cpu.socket || (config.clusters
            && last.cluster != cpu.cluster) || last.core != cpu.core) {
        FreshTracked(nodes, labels, cpus, config, cpu);
      }
    }
  }

  lemma FreshTracked(nodes: seq<Node>, labels: seq<seq<u32>>, cpus: seq<Cpu>, config: Config, cpu: Cpu)
    requires Good(nodes, labels, cpus, |cpus|, config) && Sorted(cpus, config) && cpus != [] && config.threads
    requires NotAbove(cpus[|cpus| - 1], cpu, config)
    requires var last := cpus[|cpus| - 1];
             last.socket != cpu.socket || (config.clusters && last.cluster != cpu.cluster) || last.core != cpu.core
    ensures Fresh(nodes, labels, Tracked(cpu, config))
  {
    var path := Tracked(cpu, config);
    forall earlier | NotAbove(earlier, cpus[|cpus| - 1], config)
      ensures !(path <= Tracked(earlier, config))
    {
      PrefixIds(cpu, earlier, config);
    }
    FreshAbove(nodes, labels, cpus, config, path);
  }

  /** A common label means common ids. */
  lemma PrefixIds(cpu: Cpu, other: Cpu, config: Config)
    ensures [cpu.socket] <= Tracked(other, config) ==> cpu.socket == other.socket
    ensures config.clusters && ClusterPath(cpu, config) <= Tracked(other, config) ==>
              cpu.socket == other.socket && cpu.cluster == other.cluster
    ensures Tracked(cpu, config) <= Tracked(other, config) ==>
              cpu.socket == other.socket && (config.clusters ==> cpu.cluster == other.cluster)
              && (config.threads ==> cpu.core == other.core)
  {
    var mine, theirs := Tracked(cpu, config), Tracked(other, config);
    assert theirs[0] == other.socket && mine[0] == cpu.socket;
    if config.clusters {
      assert theirs[1] == other.cluster && mine[1] == cpu.cluster && ClusterPath(cpu, config)[1] == cpu.cluster;
    }
    if config.threads {
      assert theirs[|theirs| - 1] == other.core && mine[|mine| - 1] == cpu.core;
    }
  }

  /** The socket is the first id, and the path to a socket is not that to a cluster or a core. */
  lemma SocketPath(cpu: Cpu, config: Config)
    ensures [cpu.socket] <= Tracked(cpu, config)
    ensures config.clusters ==> [cpu.socket] != ClusterPath(cpu, config)
    ensures config.threads ==> [cpu.socket] != Tracked(cpu, config)
  {
    assert config.clusters ==> |ClusterPath(cpu, config)| == 2;
    assert config.threads ==> |Tracked(cpu, config)| >= 2;
  }

  lemma SocketInv(s: State, labels: seq<seq<u32>>, cpus: seq<Cpu>, cpu: Cpu,
        config: Config) returns (labels': seq<seq<u32>>)
    requires Good(s.nodes, labels, cpus, |cpus|, config) && Sorted(cpus + [cpu], config)
    requires if cpus == [] then s == START else Filed(s, labels, cpus[|cpus| - 1], config)
    ensures SocketStep(s, cpu).Some?
    ensures var a := SocketStep(s, cpu).value;
            Good(a.nodes, labels', cpus + [cpu], |cpus|, config) && Pending(a, labels', cpu, config)
  {
    var all := cpus + [cpu];
    assert cpus != [] ==> NotAbove(all[|cpus| - 1], all[|cpus|], config);
    assert |s.nodes| == |labels|;
    hide Good, Fresh, At, Sorted, Tracked;
    NextLabels(s.nodes, labels, cpus, config, cpu);
    GoodGrows(s.nodes, labels, cpus, config, cpu);
    labels' := labels;
    if cpu.socket != s.socketId {
      SocketPath(cpu, config);
      var node := Node(PACKAGE, 0, cpu.socket);
      labels' := labels + [[cpu.socket]];
      AddContainer(s.nodes, labels, all, |cpus|, config, node, [cpu.socket]);
      if config.clusters {
        FreshSnoc(s.nodes, labels, node, [cpu.socket], ClusterPath(cpu, config));
      }
      if config.threads {
        FreshSnoc(s.nodes, labels, node, [cpu.socket], Tracked(cpu, config));
      }
    }
  }

  lemma ClusterInv(s: State, labels: seq<seq<u32>>, cpus: seq<Cpu>, config: Config) returns (labels': seq<seq<u32>>)
    requires cpus != [] && Good(s.nodes, labels, cpus, |cpus| - 1, config)
          && Pending(s, labels, cpus[|cpus| - 1], config)
    requires ClusterStep(s, cpus[|cpus| - 1], config).Some?
    ensures var b := ClusterStep(s, cpus[|cpus| - 1], config).value;
            Good(b.nodes, labels', cpus, |cpus| - 1, config) && PendingCore(b, labels', cpus[|cpus| - 1], config)
            && At(b.nodes, labels', b.socketOffset, [cpus[|cpus| - 1].socket])
  {
    var cpu := cpus[|cpus| - 1];
    var path := ClusterPath(cpu, config);
    labels' := labels;
    if config.clusters && cpu.cluster != s.clusterId {
      var node := Node(CONTAINER, s.socketOffset, cpu.cluster);
      labels' := labels + [path];
      assert path[..1] == [cpu.socket];
      AddContainer(s.nodes, labels, cpus, |cpus| - 1, config, node, path);
      AtSnoc(s.nodes, labels, node, path, s.socketOffset, [cpu.socket]);
      if config.threads {
        FreshSnoc(s.nodes, labels, node, path, Tracked(cpu, config));
      }
    }
  }

  lemma CoreInv(s: State, labels: seq<seq<u32>>, cpus: seq<Cpu>, config: Config) returns (labels': seq<seq<u32>>)
    requires cpus != [] && Good(s.nodes, labels, cpus, |cpus| - 1, config)
          && PendingCore(s, labels, cpus[|cpus| - 1], config)
    requires At(s.nodes, labels, s.socketOffset, [cpus[|cpus| - 1].socket])
    requires CoreStep(s, cpus[|cpus| - 1], config).Some?
    ensures var c := CoreStep(s, cpus[|cpus| - 1], config).value;
            var cpu := cpus[|cpus| - 1];
            |c.nodes| == |labels'| && Good(c.nodes, labels', cpus, |cpus| - 1, config)
            && At(c.nodes, labels', c.socketOffset, [cpu.socket])
            && At(c.nodes, labels', c.clusterOffset, ClusterPath(cpu, config))
            && At(c.nodes, labels', if config.threads then c.coreOffset else c.clusterOffset, Tracked(cpu, config))
  {
    var cpu := cpus[|cpus| - 1];
    var path := Tracked(cpu, config);
    labels' := labels;
    if config.threads {
      assert path[..|path| - 1] == ClusterPath(cpu, config);
      if cpu.core != s.coreId {
        var node := Node(CONTAINER, s.clusterOffset, cpu.core);
        labels' := labels + [path];
        AddContainer(s.nodes, labels, cpus, |cpus| - 1, config, node, path);
        AtSnoc(s.nodes, labels, node, path, s.socketOffset, [cpu.socket]);
        AtSnoc(s.nodes, labels, node, path, s.clusterOffset, ClusterPath(cpu, config));
      }
    } else {
      assert path == ClusterPath(cpu, config);
    }
  }

  lemma StepInv(s: State, labels: seq<seq<u32>>, cpus: seq<Cpu>, cpu: Cpu,
        config: Config) returns (labels': seq<seq<u32>>)
    requires |cpus| < U32_MAX && Good(s.nodes, labels, cpus, |cpus|, config) && Sorted(cpus + [cpu], config)
    requires if cpus == [] then s == START else Filed(s, labels, cpus[|cpus| - 1], config)
    requires Step(s, cpu, |cpus|, config).Some? && Tracks(Step(s, cpu, |cpus|, config).value, cpu, config)
    ensures var t := Step(s, cpu, |cpus|, config).value;
            Good(t.nodes, labels', cpus + [cpu], |cpus| + 1, config) && Filed(t, labels', cpu, config)
  {
    hide Good, At, Fresh, Linked, Tracks, Tracked, ClusterPath;
    var all := cpus + [cpu];
    labels' := SocketInv(s, labels, cpus, cpu, config);
    var a := SocketStep(s, cpu).value;
    labels' := ClusterInv(a, labels', all, config);
    var b := ClusterStep(a, cpu, config).value;
    labels' := CoreInv(b, labels', all, config);
    var c := CoreStep(b, cpu, config).value;
    var node := LeafStep(c, |cpus|, config).nodes[|c.nodes|];
    AddLeaf(c.nodes, labels', all, config, node);
    var path := Tracked(cpu, config) + [node.id];
    AtSnoc(c.nodes, labels', node, path, c.socketOffset, [cpu.socket]);
    AtSnoc(c.nodes, labels', node, path, c.clusterOffset, ClusterPath(cpu, config));
    if config.threads {
      AtSnoc(c.nodes, labels', node, path, c.coreOffset, Tracked(cpu, config));
    }
    labels' := labels' + [path];
  }

  lemma {:induction false} RunInv(cpus: seq<Cpu>, config: Config) returns (labels: seq<seq<u32>>)
    requires |cpus| < U32_MAX && Sorted(cpus, config)
    ensures Run(cpus, config).Some?
    ensures var s := Run(cpus, config).value;
            Good(s.nodes, labels, cpus, |cpus|, config)
            && if cpus == [] then s == START else Filed(s, labels, cpus[|cpus| - 1], config)
  {
    hide Good, Filed, Step, Tracks, Sorted;
    AssertionsHoldIffSorted(cpus, config);
    if cpus == [] {
      labels := [];
      NothingFiled(config);
    } else {
      var before, cpu := cpus[..|cpus| - 1], cpus[|cpus| - 1];
      assert cpus == before + [cpu];
      SortedPrefix(cpus, config);
      AssertionsHoldIffSorted(before, config);
      labels := RunInv(before, config);
      labels := StepInv(Run(before, config).value, labels, before, cpu, config);
    }
  }

  lemma SortedPrefix(cpus: seq<Cpu>, config: Config)
    requires cpus != [] && Sorted(cpus, config)
    ensures Sorted(cpus[..|cpus| - 1], config)
  {
  }

  lemma NothingFiled(config: Config)
    ensures Good([], [], [], 0, config)
  {
  }

  // ----- the theorems, about the nodes alone -----

  /** PPTT hierarchy: for a sorted CPU list there is exactly one leaf per CPU, in CPU order; the
      Parent offsets of each leaf lead, through earlier nodes, over that CPU's core, cluster and
      socket to a package; no container is written twice, and none that no CPU needs. */
  lemma Hierarchy(cpus: seq<Cpu>, config: Config)
    requires |cpus| < U32_MAX && Sorted(cpus, config)
    ensures Run(cpus, config).Some?
    ensures var nodes := Run(cpus, config).value.nodes;
            && LeafIds(nodes) == Iota(|cpus|)
            && (forall i :: 0 <= i < |nodes| && IsLeaf(nodes[i]) ==>
                  nodes[i].id < |cpus| && Walk(nodes, i) == Tracked(cpus[nodes[i].id], config) + [nodes[i].id])
            && (forall i, j :: 0 <= i < j < |nodes| && !IsLeaf(nodes[i]) && !IsLeaf(nodes[j]) ==>
                  Walk(nodes, i) != Walk(nodes, j))
            && (forall i :: 0 <= i < |nodes| && !IsLeaf(nodes[i]) ==> ContainerFor(Walk(nodes, i), cpus, config))
  {
    var labels := RunInv(cpus, config);
    var nodes := Run(cpus, config).value.nodes;
    forall i | 0 <= i < |nodes|
      ensures Walk(nodes, i) == labels[i]
    {
      WalkIsLabel(nodes, labels, i);
    }
  }

  /** Only packages have no parent; every other node points at an earlier node that is not a leaf. */
  lemma ParentsComeFirst(cpus: seq<Cpu>, config: Config)
    requires |cpus| < U32_MAX && Sorted(cpus, config)
    ensures Run(cpus, config).Some?
    ensures var nodes := Run(cpus, config).value.nodes;
            forall i :: 0 <= i < |nodes| ==>
              if nodes[i].flags == PACKAGE then nodes[i].parent == 0
              else exists j: nat :: j < i && nodes[i].parent == Offset(j) && !IsLeaf(nodes[j])
  {
    var labels := RunInv(cpus, config);
    var nodes := Run(cpus, config).value.nodes;
    forall i | 0 <= i < |nodes|
      ensures if nodes[i].flags == PACKAGE then nodes[i].parent == 0
              else exists j: nat :: j < i && nodes[i].parent == Offset(j) && !IsLeaf(nodes[j])
    {
      assert LinkedAt(nodes, labels, i);
    }
  }

  /** The flags a node can have: 1 for a physical package, 0 for another container; for a leaf bit 1
      (its processor id is valid), bit 3 (a leaf) and, when cores have threads, bit 2 (a thread). */
  predicate KnownFlags(n: Node, config: Config) {
    n.flags == 1 || n.flags == 0 || n.flags == if config.threads then 0x0E else 0x0A
  }

  lemma {:induction false} RunFlags(cpus: seq<Cpu>, config: Config)
    requires |cpus| <= U32_MAX && Run(cpus, config).Some?
    ensures var nodes := Run(cpus, config).value.nodes;
            forall i :: 0 <= i < |nodes| ==> KnownFlags(nodes[i], config)
  {
    if cpus != [] {
      RunFlags(cpus[..|cpus| - 1], config);
    }
  }

  /** What the flags of node `i` say it is: the leaf of a CPU, a package exactly where the walk ends at
      once, and otherwise a cluster or a core. */
  predicate FlagsRight(nodes: seq<Node>, i: nat, config: Config)
    requires i < |nodes|
  {
    nodes[i].flags == if IsLeaf(nodes[i]) then if config.threads then 0x0E else 0x0A
                      else if |Walk(nodes, i)| == 1 then 1 else 0
  }

  lemma FlagsAt(nodes: seq<Node>, labels: seq<seq<u32>>, i: nat, config: Config)
    requires Linked(nodes, labels) && i < |nodes| && KnownFlags(nodes[i], config)
    ensures FlagsRight(nodes, i, config)
  {
    hide Walk;
    WalkIsLabel(nodes, labels, i);
    assert LinkedAt(nodes, labels, i);
    LabelLength(nodes, labels, i);
  }

  lemma LabelLength(nodes: seq<Node>, labels: seq<seq<u32>>, i: nat)
    requires i < |nodes| && |nodes| == |labels| && LinkedAt(nodes, labels, i)
    ensures |labels[i]| == 1 <==> nodes[i].flags == 1
  {
  }

  /** For a sorted list the flags of every node are right. */
  lemma Flags(cpus: seq<Cpu>, config: Config)
    requires |cpus| < U32_MAX && Sorted(cpus, config)
    ensures Run(cpus, config).Some?
    ensures var nodes := Run(cpus, config).value.nodes;
            forall i :: 0 <= i < |nodes| ==> FlagsRight(nodes, i, config)
  {
    hide Run, FlagsRight, KnownFlags, Filed, Linked, Sorted;
    var labels := RunInv(cpus, config);
    RunFlags(cpus, config);
    var nodes := Run(cpus, config).value.nodes;
    forall i | 0 <= i < |nodes|
      ensures FlagsRight(nodes, i, config)
    {
      FlagsAt(nodes, labels, i, config);
    }
  }

  // ----- the bytes -----

  /** build_processor_hierarchy_node */
  function Encode(n: Node): (r: seq<byte>)
    ensures |r| == 20
  {
    [0, 20] + Le(0, 2) + Le(n.flags, 4) + Le(n.parent, 4) + Le(n.id, 4) + Le(0, 4)
  }

  function EncodeAll(nodes: seq<Node>): (r: seq<byte>)
    ensures |r| == 20 * |nodes|
  {
    if nodes == [] then [] else EncodeAll(nodes[..|nodes| - 1]) + Encode(nodes[|nodes| - 1])
  }

  function Decode(bs: seq<byte>): Node
    requires |bs| == 20
  {
    FromLeBound(bs[12..16]);
    PowersOf256();
    Node(bs[4], FromLe(bs[8..12]), FromLe(bs[12..16]))
  }

  /** The fields that are the same in every node: type 0, length 20, reserved bytes and the upper flags
      0, no private resources. */
  predicate NodeFrame(bs: seq<byte>)
    requires |bs| == 20
  {
    bs[0] == 0 && bs[1] == 20 && bs[2] == 0 && bs[3] == 0 && bs[5] == 0 && bs[6] == 0 && bs[7] == 0
    && bs[16..20] == [0, 0, 0, 0]
  }

  /** A node is read back from the table at its offset. */
  lemma {:induction false} NodeAtOffset(header: seq<byte>, nodes: seq<Node>, i: nat)
    requires |header| == 36 && i < |nodes| && forall k :: 0 <= k < |nodes| ==> nodes[k].parent <= U32_MAX
    ensures var table := header + EncodeAll(nodes);
            Offset(i) + 20 <= |table| && Decode(table[Offset(i)..Offset(i) + 20]) == nodes[i]
            && NodeFrame(table[Offset(i)..Offset(i) + 20])
    decreases |nodes|
  {
    hide Encode, Decode, NodeFrame;
    var n := |nodes| - 1;
    var shorter, table := header + EncodeAll(nodes[..n]), header + EncodeAll(nodes);
    assert table == shorter + Encode(nodes[n]);
    if i < n {
      NodeAtOffset(header, nodes[..n], i);
      assert table[Offset(i)..Offset(i) + 20] == shorter[Offset(i)..Offset(i) + 20];
    } else {
      assert table[Offset(i)..Offset(i) + 20] == Encode(nodes[n]);
      NodeRoundTrip(nodes[n]);
    }
  }

  lemma NodeRoundTrip(n: Node)
    requires n.parent <= U32_MAX
    ensures Decode(Encode(n)) == n && NodeFrame(Encode(n))
  {
    hide FromLe, Le;
    ZeroBytes();
    PowersOf256();
    LeFits(n.parent, 4);
    LeFits(n.id, 4);
    FlagsByte(n.flags);
    var bs := Encode(n);
    assert bs[8..12] == Le(n.parent, 4) && bs[12..16] == Le(n.id, 4) && bs[4..8] == Le(n.flags, 4);
    assert bs[4..8] == [bs[4], bs[5], bs[6], bs[7]];
    assert bs[16..] == Le(0, 4) && bs[16..20] == bs[16..];
    assert bs[2..4] == Le(0, 2) && bs[2..4] == [bs[2], bs[3]];
  }

  lemma ZeroBytes()
    ensures Le(0, 2) == [0, 0] && Le(0, 3) == [0, 0, 0] && Le(0, 4) == [0, 0, 0, 0]
  {
    assert Le(0, 2) == [0] + Le(0, 1) && Le(0, 1) == [0] + Le(0, 0);
    assert Le(0, 3) == [0] + Le(0, 2) && Le(0, 4) == [0] + Le(0, 3);
  }

  lemma FlagsByte(b: byte)
    ensures Le(b, 4) == [b, 0, 0, 0]
  {
    ZeroBytes();
    assert Le(b, 4) == [b % 256] + Le(b / 256, 3);
  }

  method BuildProcessorHierarchyNode(table: ByteVec, n: Node)
    modifies table
    ensures table.data == old(table.data) + Encode(n)
  {
    hide Le;
    table.Push(0);
    table.Push(20);
    table.AppendIntNoPrefix(0, 2);
    table.AppendIntNoPrefix(n.flags, 4);
    table.AppendIntNoPrefix(n.parent, 4);
    table.AppendIntNoPrefix(n.id, 4);
    table.AppendIntNoPrefix(0, 4);
  }

  /** The state the loop of build_pptt is in, given the bytes behind the header. */
  ghost predicate Holds(table: seq<byte>, start: seq<byte>, header: seq<byte>, nodes: seq<Node>) {
    table == start + header + EncodeAll(nodes)
  }

  method AppendNode(table: ByteVec, ghost start: seq<byte>, ghost header: seq<byte>, ghost nodes: seq<Node>, n: Node)
    requires Holds(table.data, start, header, nodes)
    modifies table
    ensures Holds(table.data, start, header, nodes + [n])
  {
    hide Encode;
    BuildProcessorHierarchyNode(table, n);
    assert (nodes + [n])[..|nodes|] == nodes;
  }

  /** build_pptt.  `header` is what acpi_table_begin writes; `ok` is false where an assertion stops
      the program. */
  method BuildPptt(table: ByteVec, cpus: seq<Cpu>, config: Config, header: seq<byte>) returns (ok: bool)
    requires |header| == 36 && |cpus| < U32_MAX
    modifies table
    ensures ok <==> Run(cpus, config).Some?
    ensures ok ==> table.data == old(table.data) + header + EncodeAll(Run(cpus, config).value.nodes)
  {
    hide EncodeAll;
    ghost var start := table.data;
    var ppttStart := |table.data|;
    table.Extend(header);
    NoNodes(start, header);
    var socketId: int, clusterId: int, coreId: int := -1, -1, -1;
    var socketOffset: nat, clusterOffset: nat, coreOffset: nat := 0, 0, 0;
    ghost var s := START;
    for n := 0 to |cpus|
      invariant Run(cpus[..n], config) == Some(s)
      invariant s == State(socketId, clusterId, coreId, socketOffset, clusterOffset, coreOffset, s.nodes)
      invariant Holds(table.data, start, header, s.nodes)
    {
      var cpu := cpus[n];
      ghost var upTo := cpus[..n + 1];
      assert upTo[..n] == cpus[..n];
      if cpu.socket != socketId {
        if !(cpu.socket > socketId) {
          RunStops(cpus, config, n + 1);
          return false;
        }
        socketId := cpu.socket;
        clusterId := -1;
        coreId := -1;
        socketOffset := |table.data| - ppttStart;
        AppendNode(table, start, header, s.nodes, Node(PACKAGE, 0, socketId));
      }
      ghost var a := SocketStep(s, cpu).value;
      if config.clusters {
        if cpu.cluster != clusterId {
          if !(cpu.cluster > clusterId) {
            RunStops(cpus, config, n + 1);
            return false;
          }
          clusterId := cpu.cluster;
          coreId := -1;
          clusterOffset := |table.data| - ppttStart;
          AppendNode(table, start, header, a.nodes, Node(CONTAINER, socketOffset, clusterId));
        }
      } else {
        clusterOffset := socketOffset;
      }
      ghost var b := ClusterStep(a, cpu, config).value;
      if !config.threads {
        AppendNode(table, start, header, b.nodes, Node(CORE_LEAF, clusterOffset, n));
      } else {
        if cpu.core != coreId {
          if !(cpu.core > coreId) {
            RunStops(cpus, config, n + 1);
            return false;
          }
          coreId := cpu.core;
          coreOffset := |table.data| - ppttStart;
          AppendNode(table, start, header, b.nodes, Node(CONTAINER, clusterOffset, coreId));
        }
        AppendNode(table, start, header, CoreStep(b, cpu, config).value.nodes, Node(THREAD_LEAF, coreOffset, n));
      }
      s := Step(s, cpu, n, config).value;
    }
    assert cpus[..|cpus|] == cpus;
    return true;
  }

  lemma NoNodes(start: seq<byte>, header: seq<byte>)
    ensures Holds(start + header, start, header, [])
  {
    assert start + header + EncodeAll([]) == start + header;
  }

  /** A failed assertion ends every longer run too. */
  lemma {:induction false} RunStops(cpus: seq<Cpu>, config: Config, n: nat)
    requires n <= |cpus| <= U32_MAX && Run(cpus[..n], config) == None
    ensures Run(cpus, config) == None
    decreases |cpus|
  {
    if n < |cpus| {
      assert cpus[..|cpus| - 1][..n] == cpus[..n];
      RunStops(cpus[..|cpus| - 1], config, n);
    } else {
      assert cpus[..n] == cpus;
    }
  }
}
