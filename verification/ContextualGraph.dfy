/** The relationship-graph attack: breadth-first reachability from subjects to identities, and
    the release verdict built on it. */
module ContextualGraph {
  import opened Results

  type Node = string
  type Clue = (string, string)

  datatype Edge = Edge(source: Node, target: Node, kind: string)

  datatype GraphError = InvalidEdge | DuplicateEdge | UnknownNode | InvalidThreshold | NotAuthorized | InvalidRows

  /** Edges as a relation. */
  type Relation = set<(Node, Node)>

  /** `v` is reached from `u` along exactly `n` edges. */
  ghost predicate Reaches(e: Relation, u: Node, v: Node, n: nat)
    decreases n
  {
    if n == 0 then u == v else exists w :: Reaches(e, u, w, n - 1) && (w, v) in e
  }

  /** `n` is the length of a shortest path from `u` to `v`. */
  ghost predicate IsDistance(e: Relation, u: Node, v: Node, n: nat) {
    Reaches(e, u, v, n) && forall m: nat :: Reaches(e, u, v, m) ==> n <= m
  }

  ghost predicate Reachable(e: Relation, u: Node, v: Node) {
    exists n: nat :: Reaches(e, u, v, n)
  }

  // ---------- Reading the edges ----------

  function SubjectNode(id: string): Node {
    "subject:" + id
  }

  function IdentityNode(id: string): Node {
    "identity:" + id
  }

  predicate EdgeOk(e: Edge) {
    e.source != "" && e.target != "" && e.kind == "contextual_link"
  }

  predicate NodeKnown(n: Node, subjects: set<string>, identities: set<string>) {
    && ("subject:" <= n ==> exists s :: s in subjects && n == SubjectNode(s))
    && ("identity:" <= n ==> exists i :: i in identities && n == IdentityNode(i))
  }

  function Pairs(edges: seq<Edge>): Relation {
    set e | e in edges :: (e.source, e.target)
  }

  type Adjacency = map<Node, set<Node>>

  function Targets(adjacency: Adjacency, n: Node): set<Node> {
    if n in adjacency then adjacency[n] else {}
  }

  /** The adjacency map is the relation, read by source. */
  ghost predicate Represents(adjacency: Adjacency, e: Relation) {
    forall u, v :: v in Targets(adjacency, u) <==> (u, v) in e
  }

  /** A node that claims to be a subject or an identity is one: what follows its prefix is listed. */
  ghost predicate NamesListed(n: Node, subjects: set<string>, identities: set<string>) {
    && ("subject:" <= n ==> n[8..] in subjects)
    && ("identity:" <= n ==> n[9..] in identities)
  }

  ghost predicate EdgesValid(edges: seq<Edge>, subjects: set<string>, identities: set<string>) {
    && (forall e :: e in edges ==> e.source != "" && e.target != "" && e.kind == "contextual_link")
    && (forall i, j :: 0 <= i < j < |edges| ==> (edges[i].source, edges[i].target) != (edges[j].source, edges[j].target))
    && (forall e :: e in edges ==> NamesListed(e.source, subjects, identities) && NamesListed(e.target, subjects, identities))
  }

  lemma KnownIffListed(n: Node, subjects: set<string>, identities: set<string>)
    ensures NodeKnown(n, subjects, identities) <==> NamesListed(n, subjects, identities)
  {
    if "subject:" <= n {
      assert n == SubjectNode(n[8..]);
      forall s | n == SubjectNode(s) ensures s == n[8..] {
      }
    }
    if "identity:" <= n {
      assert n == IdentityNode(n[9..]);
      forall i | n == IdentityNode(i) ensures i == n[9..] {
      }
    }
  }

  /** The same, in terms of the checks. */
  ghost predicate EdgesPass(edges: seq<Edge>, subjects: set<string>, identities: set<string>) {
    && (forall e :: e in edges ==> EdgeOk(e))
    && (forall i, j :: 0 <= i < j < |edges| ==> (edges[i].source, edges[i].target) != (edges[j].source, edges[j].target))
    && (forall e :: e in edges ==> NodeKnown(e.source, subjects, identities) && NodeKnown(e.target, subjects, identities))
  }

  lemma PassIffValid(edges: seq<Edge>, subjects: set<string>, identities: set<string>)
    ensures EdgesPass(edges, subjects, identities) <==> EdgesValid(edges, subjects, identities)
  {
    hide NamesListed, NodeKnown;
    forall n ensures NodeKnown(n, subjects, identities) <==> NamesListed(n, subjects, identities) {
      KnownIffListed(n, subjects, identities);
    }
  }

  lemma OneMoreEdge(adjacency: Adjacency, edges: seq<Edge>, i: nat)
    requires i < |edges| && Represents(adjacency, Pairs(edges[..i]))
    ensures var e := edges[i];
      && Pairs(edges[..i + 1]) == Pairs(edges[..i]) + {(e.source, e.target)}
      && Represents(adjacency[e.source := Targets(adjacency, e.source) + {e.target}], Pairs(edges[..i + 1]))
  {
    assert edges[..i + 1] == edges[..i] + [edges[i]];
  }

  lemma NoEdges(edges: seq<Edge>)
    ensures Pairs(edges[..0]) == {} && Represents(map[], Pairs(edges[..0]))
  {
  }

  lemma PairsAreListed(edges: seq<Edge>, i: nat, source: Node, target: Node)
    requires i <= |edges|
    ensures (source, target) in Pairs(edges[..i]) <==> exists k :: 0 <= k < i && (edges[k].source, edges[k].target) == (source, target)
  {
    forall k | 0 <= k < i ensures edges[k] in edges[..i] {
      assert edges[..i][k] == edges[k];
    }
  }

  method ReadEdges(edges: seq<Edge>, subjects: set<string>, identities: set<string>) returns (r: Result<Adjacency, GraphError>)
    ensures r.Ok? <==> EdgesValid(edges, subjects, identities)
    ensures r.Ok? ==> Represents(r.value, Pairs(edges))
  {
    hide NodeKnown, EdgeOk, EdgesValid, Represents, Targets, Pairs;
    PassIffValid(edges, subjects, identities);
    var adjacency: Adjacency := map[];
    var seen: Relation := {};
    NoEdges(edges);
    for i := 0 to |edges|
      invariant seen == Pairs(edges[..i])
      invariant Represents(adjacency, seen)
      invariant forall k :: 0 <= k < i ==> EdgeOk(edges[k])
      invariant forall a, b :: 0 <= a < b < i ==> (edges[a].source, edges[a].target) != (edges[b].source, edges[b].target)
    {
      var e := edges[i];
      assert e in edges;
      if !EdgeOk(e) {
        return Err(InvalidEdge);
      }
      PairsAreListed(edges, i, e.source, e.target);
      if (e.source, e.target) in seen {
        return Err(DuplicateEdge);
      }
      OneMoreEdge(adjacency, edges, i);
      seen := seen + {(e.source, e.target)};
      adjacency := adjacency[e.source := Targets(adjacency, e.source) + {e.target}];
    }
    assert edges[..|edges|] == edges;
    var known := CheckNodes(edges, subjects, identities);
    r := if known then Ok(adjacency) else Err(UnknownNode);
  }

  /** The second loop: every node that claims to be a subject or an identity is known. */
  method CheckNodes(edges: seq<Edge>, subjects: set<string>, identities: set<string>) returns (known: bool)
    ensures known <==> forall e :: e in edges ==>
      NodeKnown(e.source, subjects, identities) && NodeKnown(e.target, subjects, identities)
  {
    hide NodeKnown;
    for i := 0 to |edges|
      invariant forall e :: e in edges[..i] ==>
        NodeKnown(e.source, subjects, identities) && NodeKnown(e.target, subjects, identities)
    {
      assert edges[..i + 1] == edges[..i] + [edges[i]];
      if !NodeKnown(edges[i].source, subjects, identities) || !NodeKnown(edges[i].target, subjects, identities) {
        assert edges[i] in edges;
        return false;
      }
    }
    assert edges[..|edges|] == edges;
    known := true;
  }

  // ---------- Breadth-first search ----------

  /** Everything the search can ever visit. */
  function Universe(adjacency: Adjacency, start: Node): set<Node> {
    {start} + set u, v | u in adjacency && v in adjacency[u] :: v
  }

  /** What is known about the distances found so far. */
  ghost predicate Found(e: Relation, start: Node, distances: map<Node, nat>, queue: seq<Node>) {
    && start in distances && distances[start] == 0
    && (forall n :: n in distances <==> n in queue)
    && (forall i, j :: 0 <= i < j < |queue| ==> queue[i] != queue[j])
    && (forall n :: n in distances ==> Reaches(e, start, n, distances[n]))
    && (forall i, j :: 0 <= i <= j < |queue| ==> distances[queue[i]] <= distances[queue[j]])
  }

  /** All edges out of `n` have been followed. */
  ghost predicate Expanded(e: Relation, distances: map<Node, nat>, n: Node) {
    n in distances && forall v :: (n, v) in e ==> v in distances && distances[v] <= distances[n] + 1
  }

  /** The first `done` nodes of the queue are expanded, and the rest is at most one step ahead
      of the node `at` being expanded. */
  ghost predicate Front(e: Relation, distances: map<Node, nat>, queue: seq<Node>, done: nat, at: nat) {
    && done <= |queue|
    && (forall i :: 0 <= i < done ==> Expanded(e, distances, queue[i]))
    && (forall i :: 0 <= i < |queue| ==> queue[i] in distances && distances[queue[i]] <= at + 1)
  }

  lemma Discover(e: Relation, start: Node, distances: map<Node, nat>, queue: seq<Node>, done: nat, node: Node, target: Node)
    requires Found(e, start, distances, queue) && node in distances && Front(e, distances, queue, done, distances[node])
    requires (node, target) in e && target !in distances
    ensures var distances' := distances[target := distances[node] + 1];
      Found(e, start, distances', queue + [target]) && Front(e, distances', queue + [target], done, distances[node])
  {
    var distances' := distances[target := distances[node] + 1];
    assert Reaches(e, start, target, distances[node] + 1) by {
      assert Reaches(e, start, node, distances[node]);
    }
    forall i | 0 <= i < done ensures Expanded(e, distances', (queue + [target])[i]) {
      assert Expanded(e, distances, queue[i]);
    }
  }

  lemma {:induction false} NoShorterPath(e: Relation, start: Node, distances: map<Node, nat>, queue: seq<Node>, v: Node, m: nat)
    requires Found(e, start, distances, queue) && forall i :: 0 <= i < |queue| ==> Expanded(e, distances, queue[i])
    requires Reaches(e, start, v, m)
    ensures v in distances && distances[v] <= m
    decreases m
  {
    if m > 0 {
      var w :| Reaches(e, start, w, m - 1) && (w, v) in e;
      NoShorterPath(e, start, distances, queue, w, m - 1);
      assert w in queue;
      assert Expanded(e, distances, w);
    }
  }

  /** Before node `i` of the queue is taken, or when none is left. */
  ghost predicate Turn(e: Relation, distances: map<Node, nat>, queue: seq<Node>, i: nat) {
    if i < |queue| then queue[i] in distances && Front(e, distances, queue, i, distances[queue[i]])
    else i == |queue| && forall k :: 0 <= k < |queue| ==> Expanded(e, distances, queue[k])
  }

  lemma SearchStarts(e: Relation, start: Node)
    ensures Found(e, start, map[start := 0], [start]) && Turn(e, map[start := 0], [start], 0)
  {
  }

  lemma NextTurn(e: Relation, start: Node, distances: map<Node, nat>, queue: seq<Node>, i: nat)
    requires Found(e, start, distances, queue) && i < |queue| && queue[i] in distances
    requires Front(e, distances, queue, i + 1, distances[queue[i]])
    ensures Turn(e, distances, queue, i + 1)
  {
    if i + 1 < |queue| {
      assert distances[queue[i]] <= distances[queue[i + 1]];
    }
  }

  /** The breadth-first search finds exactly the reachable nodes, with their distances. */
  method Search(adjacency: Adjacency, ghost e: Relation, start: Node) returns (distances: map<Node, nat>)
    requires Represents(adjacency, e)
    ensures forall v :: v in distances <==> Reachable(e, start, v)
    ensures forall v :: v in distances ==> IsDistance(e, start, v, distances[v])
  {
    distances := map[start := 0];
    var queue := [start];
    var i := 0;
    SearchStarts(e, start);
    hide Found, Front, Expanded, Reachable, IsDistance;
    while i < |queue|
      invariant i <= |queue| && Found(e, start, distances, queue) && Turn(e, distances, queue, i)
      invariant forall n :: n in queue ==> n in Universe(adjacency, start)
      decreases Universe(adjacency, start) - Elements(queue[..i])
    {
      ghost var before := queue;
      distances, queue := Expand(adjacency, e, start, distances, queue, i);
      NextTurn(e, start, distances, queue, i);
      OneMoreElement(e, start, distances, before, queue, i);
      i := i + 1;
    }
    SearchIsExact(e, start, distances, queue);
  }

  lemma SearchIsExact(e: Relation, start: Node, distances: map<Node, nat>, queue: seq<Node>)
    requires Found(e, start, distances, queue) && forall k :: 0 <= k < |queue| ==> Expanded(e, distances, queue[k])
    ensures forall v :: v in distances <==> Reachable(e, start, v)
    ensures forall v :: v in distances ==> IsDistance(e, start, v, distances[v])
  {
    forall v ensures v in distances <==> Reachable(e, start, v) {
      if n: nat :| Reaches(e, start, v, n) {
        NoShorterPath(e, start, distances, queue, v, n);
      }
    }
    forall v | v in distances ensures IsDistance(e, start, v, distances[v]) {
      forall m: nat | Reaches(e, start, v, m) ensures distances[v] <= m {
        NoShorterPath(e, start, distances, queue, v, m);
      }
    }
  }

  lemma OneMoreElement(e: Relation, start: Node, distances: map<Node, nat>, before: seq<Node>, queue: seq<Node>, i: nat)
    requires Found(e, start, distances, queue) && before <= queue && i < |before|
    ensures Elements(queue[..i + 1]) == Elements(before[..i]) + {queue[i]} && queue[i] !in Elements(before[..i])
  {
    assert queue[..i + 1] == before[..i] + [queue[i]];
    NotAmong(queue, i);
    assert queue[..i] == before[..i];
  }

  ghost function Elements(s: seq<Node>): set<Node> {
    set n | n in s
  }

  lemma NotAmong(queue: seq<Node>, i: nat)
    requires i < |queue| && forall a, b :: 0 <= a < b < |queue| ==> queue[a] != queue[b]
    ensures queue[i] !in queue[..i]
  {
  }

  /** Follows the edges out of the queue's node `i`; newly met nodes join the queue's end. */
  method Expand(adjacency: Adjacency, ghost e: Relation, start: Node, distances0: map<Node, nat>, queue0: seq<Node>, i: nat)
    returns (distances: map<Node, nat>, queue: seq<Node>)
    requires Represents(adjacency, e) && Found(e, start, distances0, queue0) && i < |queue0|
    requires Front(e, distances0, queue0, i, distances0[queue0[i]])
    requires forall n :: n in queue0 ==> n in Universe(adjacency, start)
    ensures Found(e, start, distances, queue) && queue0 <= queue
    ensures Front(e, distances, queue, i + 1, distances0[queue0[i]])
    ensures queue[i] in distances && distances[queue[i]] == distances0[queue0[i]]
    ensures forall n :: n in queue ==> n in Universe(adjacency, start)
  {
    hide Found, Front, Universe;
    distances, queue := distances0, queue0;
    var node := queue[i];
    QueueIsFound(e, start, distances, queue, i);
    var todo := Targets(adjacency, node);
    while todo != {}
      invariant todo <= Targets(adjacency, node) && queue0 <= queue && queue[i] == node
      invariant node in distances && distances[node] == distances0[node]
      invariant Found(e, start, distances, queue) && Front(e, distances, queue, i, distances0[node])
      invariant forall v :: v in Targets(adjacency, node) && v !in todo ==> v in distances
      invariant forall n :: n in queue ==> n in Universe(adjacency, start)
    {
      var target :| target in todo;
      todo := todo - {target};
      if target in distances {
        continue;
      }
      Discover(e, start, distances, queue, i, node, target);
      InUniverse(adjacency, start, node, target);
      distances := distances[target := distances[node] + 1];
      queue := queue + [target];
    }
    forall v | (node, v) in e ensures v in distances {
      assert v in Targets(adjacency, node);
    }
    FinishNode(e, start, distances, queue, i);
  }

  lemma QueueIsFound(e: Relation, start: Node, distances: map<Node, nat>, queue: seq<Node>, i: nat)
    requires Found(e, start, distances, queue) && i < |queue|
    ensures queue[i] in distances
  {
  }

  lemma InUniverse(adjacency: Adjacency, start: Node, node: Node, target: Node)
    requires target in Targets(adjacency, node)
    ensures target in Universe(adjacency, start)
  {
  }

  lemma FinishNode(e: Relation, start: Node, distances: map<Node, nat>, queue: seq<Node>, i: nat)
    requires Found(e, start, distances, queue) && i < |queue| && queue[i] in distances
    requires Front(e, distances, queue, i, distances[queue[i]])
    requires forall v :: (queue[i], v) in e ==> v in distances
    ensures Front(e, distances, queue, i + 1, distances[queue[i]])
  {
    forall v | (queue[i], v) in e ensures distances[v] <= distances[queue[i]] + 1 {
      assert v in queue;
    }
  }
}
