/**
 * The mind-map graph as a value: how seeding and expansion build nodes and links, and
 * the shape every reachable graph keeps (a tree rooted at the seed word).
 */
module MindMap {
  import opened Text
  import opened Types

  datatype Graph = Graph(nodes: seq<Node>, links: seq<Link>)

  /** The root for a seed word: its id is the lower-cased word, with no suffix. */
  function RootNode(word: string): Node
  {
    Node(ToLower(word), word, 0, None)
  }

  /** A child's id: the lower-cased word, a dash, and a drawn suffix. */
  function ChildId(word: string, suffix: string): string
  {
    ToLower(word) + "-" + suffix
  }

  function ChildNode(parent: Node, word: string, suffix: string): Node
  {
    Node(ChildId(word, suffix), word, parent.depth + 1, Some(parent.id))
  }

  /** One child of `parent` per related word, in order, the i-th with the i-th suffix. */
  function Children(parent: Node, related: seq<string>, suffixes: seq<string>): seq<Node>
    requires |suffixes| == |related|
  {
    seq(|related|, i requires 0 <= i < |related| => ChildNode(parent, related[i], suffixes[i]))
  }

  /** One link from `parent` to each of `children`. */
  function ParentLinks(parent: Node, children: seq<Node>): seq<Link>
  {
    seq(|children|, i requires 0 <= i < |children| => Link(parent.id, children[i].id))
  }

  /**
   * The graph after `parent` has been expanded with `related`: the old nodes and links
   * stay in place, and each related word adds one node one level below `parent` and one
   * link from `parent` to that node.
   */
  function Grow(g: Graph, parent: Node, related: seq<string>, suffixes: seq<string>): (r: Graph)
    requires |suffixes| == |related|
    ensures |r.nodes| == |g.nodes| + |related| && r.nodes[..|g.nodes|] == g.nodes
    ensures |r.links| == |g.links| + |related| && r.links[..|g.links|] == g.links
  {
    var c := Children(parent, related, suffixes);
    Graph(g.nodes + c, g.links + ParentLinks(parent, c))
  }

  /**
   * The graph a new search for `word` builds: the root first, then one child of the root
   * per related word, each reached by one link from the root.
   */
  function Seeded(word: string, related: seq<string>, suffixes: seq<string>): (r: Graph)
    requires |suffixes| == |related|
    ensures |r.nodes| == 1 + |related| && |r.links| == |related|
    ensures r.nodes[0] == RootNode(word) && IsRoot(r.nodes[0])
  {
    Grow(Graph([RootNode(word)], []), RootNode(word), related, suffixes)
  }

  function Ids(nodes: seq<Node>): (ids: seq<string>)
    ensures |ids| == |nodes|
    ensures forall i :: 0 <= i < |nodes| ==> ids[i] == nodes[i].id
  {
    seq(|nodes|, i requires 0 <= i < |nodes| => nodes[i].id)
  }

  /** The ids an expansion gives its new children. */
  function ChildIds(related: seq<string>, suffixes: seq<string>): (ids: seq<string>)
    requires |suffixes| == |related|
    ensures |ids| == |related|
  {
    seq(|related|, i requires 0 <= i < |related| => ChildId(related[i], suffixes[i]))
  }

  /**
   * The assumption random suffixes stand for: the new ids differ from one another and
   * from every id already taken.
   */
  predicate FreshIds(taken: seq<string>, ids: seq<string>)
  {
    (forall i, j :: 0 <= i < j < |ids| ==> ids[i] != ids[j]) &&
    forall i :: 0 <= i < |ids| ==> ids[i] !in taken
  }

  predicate UniqueIds(nodes: seq<Node>)
  {
    forall i, j :: 0 <= i < j < |nodes| ==> nodes[i].id != nodes[j].id
  }

  predicate IsRoot(n: Node)
  {
    n.depth == 0 && n.parentId == None
  }

  /** Node `p` is the parent of node `k`, and link `k - 1` runs from the one to the other. */
  predicate ParentAt(g: Graph, p: int, k: int)
    requires 0 <= p < |g.nodes| && 1 <= k < |g.nodes| && k <= |g.links|
  {
    var parent, child := g.nodes[p], g.nodes[k];
    g.links[k - 1] == Link(parent.id, child.id) &&
    child.parentId == Some(parent.id) && child.depth == parent.depth + 1
  }

  /** Node `k` has a parent placed before it. */
  ghost predicate HasParent(g: Graph, k: int)
    requires 1 <= k < |g.nodes| && k <= |g.links|
  {
    exists p :: 0 <= p < k && ParentAt(g, p, k)
  }

  /**
   * The shape of every graph the application builds: ids are unique, the first node is
   * the root, and every later node has exactly one link, from a parent placed before it
   * and one level above it. Links are appended in step with the nodes they lead to.
   */
  ghost predicate WellFormed(g: Graph)
  {
    UniqueIds(g.nodes) &&
    (g.nodes == [] ==> g.links == []) &&
    (g.nodes != [] ==>
      IsRoot(g.nodes[0]) && |g.links| == |g.nodes| - 1 &&
      forall k :: 1 <= k < |g.nodes| ==> HasParent(g, k))
  }

  /** The indices of the links that end at `id`. */
  function IncomingLinks(links: seq<Link>, id: string): set<nat>
  {
    set k: nat | k < |links| && links[k].target == id
  }

  /** Expanding a node of a well-formed graph with fresh ids keeps it well-formed. */
  lemma GrowWellFormed(g: Graph, parent: Node, related: seq<string>, suffixes: seq<string>)
    requires WellFormed(g) && parent in g.nodes
    requires |suffixes| == |related|
    requires FreshIds(Ids(g.nodes), ChildIds(related, suffixes))
    ensures WellFormed(Grow(g, parent, related, suffixes))
  {
    GrowUniqueIds(g, parent, related, suffixes);
    GrowParents(g, parent, related, suffixes);
  }

  /** Fresh ids keep the ids of an expanded graph pairwise distinct. */
  lemma GrowUniqueIds(g: Graph, parent: Node, related: seq<string>, suffixes: seq<string>)
    requires UniqueIds(g.nodes)
    requires |suffixes| == |related|
    requires FreshIds(Ids(g.nodes), ChildIds(related, suffixes))
    ensures UniqueIds(Grow(g, parent, related, suffixes).nodes)
  {
    var h := Grow(g, parent, related, suffixes);
    var n := |g.nodes|;
    var newIds := ChildIds(related, suffixes);
    forall i, j | 0 <= i < j < |h.nodes| ensures h.nodes[i].id != h.nodes[j].id {
      if n <= i {
        assert h.nodes[i].id == newIds[i - n] && h.nodes[j].id == newIds[j - n];
      } else if n <= j {
        assert h.nodes[j].id == newIds[j - n];
        assert h.nodes[i].id == Ids(g.nodes)[i];
      }
    }
  }

  /** Every node of an expanded graph but the first keeps, or gets, its parent link. */
  lemma GrowParents(g: Graph, parent: Node, related: seq<string>, suffixes: seq<string>)
    requires WellFormed(g) && parent in g.nodes
    requires |suffixes| == |related|
    ensures var h := Grow(g, parent, related, suffixes);
      |h.links| == |h.nodes| - 1 && forall k :: 1 <= k < |h.nodes| ==> HasParent(h, k)
  {
    var h := Grow(g, parent, related, suffixes);
    var n := |g.nodes|;
    var c := Children(parent, related, suffixes);
    var pc :| 0 <= pc < n && g.nodes[pc] == parent;
    forall k | 1 <= k < |h.nodes| ensures HasParent(h, k) {
      if k < n {
        assert HasParent(g, k);
        var p :| 0 <= p < k && ParentAt(g, p, k);
        assert ParentAt(h, p, k);
      } else {
        assert h.nodes[k] == c[k - n];
        assert h.links[k - 1] == ParentLinks(parent, c)[k - n];
        assert ParentAt(h, pc, k);
      }
    }
  }

  /** A new search with fresh ids builds a well-formed graph. */
  lemma SeededWellFormed(word: string, related: seq<string>, suffixes: seq<string>)
    requires |suffixes| == |related|
    requires FreshIds([ToLower(word)], ChildIds(related, suffixes))
    ensures WellFormed(Seeded(word, related, suffixes))
  {
    var g := Graph([RootNode(word)], []);
    assert Ids(g.nodes) == [ToLower(word)];
    GrowWellFormed(g, RootNode(word), related, suffixes);
  }

  /** In a well-formed graph every link starts and ends at a node of the graph. */
  lemma LinkEndpointsExist(g: Graph)
    requires WellFormed(g)
    ensures forall l :: l in g.links ==> l.source in Ids(g.nodes) && l.target in Ids(g.nodes)
  {
    forall l | l in g.links ensures l.source in Ids(g.nodes) && l.target in Ids(g.nodes) {
      var k :| 0 <= k < |g.links| && g.links[k] == l;
      assert HasParent(g, k + 1);
      var p :| 0 <= p < k + 1 && ParentAt(g, p, k + 1);
      assert l.source == Ids(g.nodes)[p] && l.target == Ids(g.nodes)[k + 1];
    }
  }

  /**
   * A link runs from its target's parent to the target: the source is the node one level
   * up, placed earlier, and it is the node the target names as its parent.
   */
  lemma LinkDepthStep(g: Graph, k: nat, i: nat, j: nat)
    requires WellFormed(g)
    requires k < |g.links| && i < |g.nodes| && j < |g.nodes|
    requires g.nodes[i].id == g.links[k].source && g.nodes[j].id == g.links[k].target
    ensures g.nodes[j].depth == g.nodes[i].depth + 1 && i < j
    ensures g.nodes[j].parentId == Some(g.nodes[i].id)
  {
    assert HasParent(g, k + 1);
    var p :| 0 <= p < k + 1 && ParentAt(g, p, k + 1);
    assert g.nodes[j].id == g.nodes[k + 1].id;
    assert j == k + 1;
    assert g.nodes[i].id == g.nodes[p].id;
    assert i == p;
  }

  /** The root is the target of no link and every other node of exactly one. */
  lemma UniqueParentLink(g: Graph, j: nat)
    requires WellFormed(g) && j < |g.nodes|
    ensures IncomingLinks(g.links, g.nodes[j].id) == if j == 0 then {} else {j - 1}
  {
    var s := IncomingLinks(g.links, g.nodes[j].id);
    forall k: nat | k < |g.links| ensures g.links[k].target == g.nodes[k + 1].id {
      assert HasParent(g, k + 1);
      var p :| 0 <= p < k + 1 && ParentAt(g, p, k + 1);
    }
    forall k: nat ensures k in s <==> j != 0 && k == j - 1 {
      if k in s {
        assert g.nodes[k + 1].id == g.nodes[j].id;
      }
    }
  }

  /**
   * A completion applied to a graph that does not hold the clicked node (the map was
   * reset, or replaced by a new search, while the request was out) leaves a graph that
   * is not well-formed as soon as the answer holds at least one related word.
   */
  lemma StaleCompletionBreaksShape(g: Graph, clicked: Node, related: seq<string>, suffixes: seq<string>)
    requires WellFormed(g) && clicked.id !in Ids(g.nodes)
    requires |suffixes| == |related| && related != []
    ensures !WellFormed(Grow(g, clicked, related, suffixes))
  {
    var h := Grow(g, clicked, related, suffixes);
    var n := |g.nodes|;
    if n == 0 {
      assert !IsRoot(h.nodes[0]);
    } else if |h.links| == |h.nodes| - 1 {
      // The first new node names the clicked node as its parent, and no node before it has that id.
      forall p | 0 <= p < n ensures !ParentAt(h, p, n) {
        assert h.nodes[p].id == Ids(g.nodes)[p];
      }
      assert !HasParent(h, n);
    }
  }

  /** The ids of a new search's graph: the root's, then the children's in order. */
  lemma SeededIds(word: string, related: seq<string>, suffixes: seq<string>)
    requires |suffixes| == |related|
    ensures Ids(Seeded(word, related, suffixes).nodes) == [ToLower(word)] + ChildIds(related, suffixes)
  {
    var g := Seeded(word, related, suffixes);
    var c := Children(RootNode(word), related, suffixes);
    var ids, want := Ids(g.nodes), [ToLower(word)] + ChildIds(related, suffixes);
    assert g.nodes == [RootNode(word)] + c;
    forall i | 0 <= i < |ids| ensures ids[i] == want[i] {
      if i > 0 {
        assert g.nodes[i] == c[i - 1];
      }
    }
    assert ids == want;
  }

  /** What a new search builds, spelled out. */
  lemma SeededShape(word: string, related: seq<string>, suffixes: seq<string>)
    requires |suffixes| == |related|
    ensures |Seeded(word, related, suffixes).nodes| == 1 + |related|
    ensures |Seeded(word, related, suffixes).links| == |related|
    ensures Seeded(word, related, suffixes).nodes[0] == Node(ToLower(word), word, 0, None)
    ensures forall i :: 0 <= i < |related| ==>
      Seeded(word, related, suffixes).nodes[i + 1] ==
        Node(ToLower(related[i]) + "-" + suffixes[i], related[i], 1, Some(ToLower(word)))
    ensures forall i :: 0 <= i < |related| ==>
      Seeded(word, related, suffixes).links[i] ==
        Link(ToLower(word), ToLower(related[i]) + "-" + suffixes[i])
  {
    var root := RootNode(word);
    var g := Seeded(word, related, suffixes);
    var c := Children(root, related, suffixes);
    assert g.nodes == [root] + c;
    assert g.links == ParentLinks(root, c);
    forall i | 0 <= i < |related|
      ensures g.nodes[i + 1] == Node(ToLower(related[i]) + "-" + suffixes[i], related[i], 1, Some(ToLower(word)))
      ensures g.links[i] == Link(ToLower(word), ToLower(related[i]) + "-" + suffixes[i])
    {
      assert g.nodes[i + 1] == c[i];
    }
  }

  /** What an expansion adds, spelled out: the i-th new node is the i-th related word's. */
  lemma GrowShape(g: Graph, parent: Node, related: seq<string>, suffixes: seq<string>)
    requires |suffixes| == |related|
    ensures forall i :: 0 <= i < |related| ==>
      Grow(g, parent, related, suffixes).nodes[|g.nodes| + i] ==
        Node(ToLower(related[i]) + "-" + suffixes[i], related[i], parent.depth + 1, Some(parent.id))
    ensures forall i :: 0 <= i < |related| ==>
      Grow(g, parent, related, suffixes).links[|g.links| + i] ==
        Link(parent.id, ToLower(related[i]) + "-" + suffixes[i])
  {
    var c := Children(parent, related, suffixes);
    var h := Grow(g, parent, related, suffixes);
    assert h.nodes == g.nodes + c;
    assert h.links == g.links + ParentLinks(parent, c);
    forall i | 0 <= i < |related|
      ensures h.nodes[|g.nodes| + i] == ChildNode(parent, related[i], suffixes[i])
      ensures h.links[|g.links| + i] == Link(parent.id, ChildId(related[i], suffixes[i]))
    {
      assert h.nodes[|g.nodes| + i] == c[i];
      assert h.links[|g.links| + i] == ParentLinks(parent, c)[i];
    }
  }
}
