/**
 A dialogue graph: its node sequence and three node cursors, `start`,
 `current` and `initNode`. Only `current` is read by the parser.
 */
module DialogueGraphs {
  import opened Wrappers
  import opened DialogueNodes

  datatype Graph = Graph(
    nodes: seq<Node>,
    start: Option<NodeIndex>,
    current: Option<NodeIndex>,
    initNode: Option<NodeIndex>)

  /** A null reference or a reference to one of `count` nodes. */
  predicate InRange(o: Option<NodeIndex>, count: nat) {
    o.None? || o.value < count
  }

  predicate LinksInRange(n: Node, count: nat) {
    forall k :: 0 <= k < |n.links| ==> InRange(n.links[k], count)
  }

  /** Every node is well formed, and every link and cursor refers to a node of this graph. */
  predicate ValidGraph(g: Graph) {
    && (forall i :: 0 <= i < |g.nodes| ==> WellFormed(g.nodes[i]) && LinksInRange(g.nodes[i], |g.nodes|))
    && InRange(g.start, |g.nodes|)
    && InRange(g.current, |g.nodes|)
    && InRange(g.initNode, |g.nodes|)
  }

  /** Points both `start` and `current` back at `initNode`. */
  function Start(g: Graph): (r: Graph)
    ensures r.current == g.initNode && r.start == g.initNode
    ensures r.initNode == g.initNode && r.nodes == g.nodes
    ensures ValidGraph(g) ==> ValidGraph(r)
  {
    g.(start := g.initNode, current := g.initNode)
  }

  lemma StartIdempotent(g: Graph)
    ensures Start(Start(g)) == Start(g)
  {
  }

  predicate HasEntryPort(n: Node) {
    GetPort(n, Entry).Some?
  }

  /**
   Every node of a node list passes the scan's entry-port test: the test looks
   only at the port's existence, never at the links that reach it.
   */
  lemma EveryNodeHasEntry(nodes: seq<Node>)
    ensures forall k :: 0 <= k < |nodes| ==> HasEntryPort(nodes[k])
  {
  }

  /** The first node at or after `from`, in list order, that passes `accept`. */
  function FirstFrom(nodes: seq<Node>, from: nat, accept: Node -> bool): (r: Option<NodeIndex>)
    requires from <= |nodes|
    ensures r.Some? ==> from <= r.value < |nodes| && accept(nodes[r.value])
    ensures r.Some? ==> forall k :: from <= k < r.value ==> !accept(nodes[k])
    ensures r.None? <==> forall k :: from <= k < |nodes| ==> !accept(nodes[k])
    decreases |nodes| - from
  {
    if from == |nodes| then None
    else if accept(nodes[from]) then Some(from)
    else FirstFrom(nodes, from + 1, accept)
  }

  /** The first node of the list that has an entry port. */
  function FirstEntry(nodes: seq<Node>): Option<NodeIndex> {
    FirstFrom(nodes, 0, HasEntryPort)
  }

  /**
   Since every node declares an entry port, the scan picks the first node of
   the list, connected or not, and never consults `initNode`.
   */
  lemma FirstEntryIsFirstNode(nodes: seq<Node>)
    ensures |nodes| > 0 ==> FirstEntry(nodes) == Some(0)
    ensures |nodes| == 0 ==> FirstEntry(nodes) == None
  {
    EveryNodeHasEntry(nodes);
  }

  /** Node `b` can be reached from node `a` by following at most `steps` response links. */
  predicate ReachesIn(nodes: seq<Node>, a: NodeIndex, b: NodeIndex, steps: nat)
    decreases steps
  {
    || a == b
    || (&& steps > 0
        && a < |nodes|
        && exists j :: 0 <= j < |nodes[a].links| && nodes[a].links[j].Some? &&
                       ReachesIn(nodes, nodes[a].links[j].value, b, steps - 1))
  }

  /** A path within `steps` links is also a path within `steps + 1`. */
  lemma {:induction false} ReachesInMonotonic(nodes: seq<Node>, a: NodeIndex, b: NodeIndex, steps: nat)
    requires ReachesIn(nodes, a, b, steps)
    ensures ReachesIn(nodes, a, b, steps + 1)
    decreases steps
  {
    if a != b {
      var j :| 0 <= j < |nodes[a].links| && nodes[a].links[j].Some? &&
               ReachesIn(nodes, nodes[a].links[j].value, b, steps - 1);
      ReachesInMonotonic(nodes, nodes[a].links[j].value, b, steps - 1);
    }
  }

  /** Some response port of some node links to node `k`. */
  predicate EntryConnected(g: Graph, k: NodeIndex) {
    exists i, j :: 0 <= i < |g.nodes| && 0 <= j < |g.nodes[i].links| && g.nodes[i].links[j] == Some(k)
  }
}
