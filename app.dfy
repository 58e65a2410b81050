/**
 * The application shell: the state the page keeps and the three things the user can do
 * to it (start a new search, click a node to expand it, reset the map).
 */
module App {
  import opened Text
  import opened Types
  import opened MindMap

  class MindMapApp {
    var nodes: seq<Node>
    var links: seq<Link>
    var initialWord: string     // the text in the search box
    var isLoading: bool         // a request to the related-word service is out
    var history: seq<string>    // the path of words explored, seed word first
    var expanded: set<string>   // ids of the nodes already expanded

    /** The graph is a tree rooted at the seed word and only its nodes are marked expanded. */
    ghost predicate Valid()
      reads this
    {
      WellFormed(Graph(nodes, links)) &&
      forall id :: id in expanded ==> id in Ids(nodes)
    }

    /** The page as first loaded. */
    constructor ()
      ensures nodes == [] && links == [] && history == [] && expanded == {}
      ensures initialWord == "" && !isLoading
      ensures Valid()
    {
      nodes, links, history, expanded := [], [], [], {};
      initialWord, isLoading := "", false;
    }

    /** Typing into the search box. */
    method SetInitialWord(text: string)
      modifies this`initialWord
      ensures initialWord == text
      ensures Valid() == old(Valid())
    {
      initialWord := text;
    }

    /**
     * Submitting the search box. Nothing happens when the text is blank; otherwise the
     * map is replaced by the search word and one child per related word. `related` is
     * what the related-word service answered and `suffixes` the random id suffixes drawn.
     */
    method StartGame(related: seq<string>, suffixes: seq<string>) returns (started: bool)
      requires |suffixes| == |related|
      modifies this
      ensures started <==> !IsBlank(old(initialWord))
      ensures !started ==> unchanged(this)
      ensures started ==> Graph(nodes, links) == Seeded(old(initialWord), related, suffixes)
      ensures started ==> history == [old(initialWord)] && expanded == {ToLower(old(initialWord))}
      ensures started ==> !isLoading && initialWord == ""
      ensures started && FreshIds([ToLower(old(initialWord))], ChildIds(related, suffixes)) ==> Valid()
    {
      var blank := TrimsToEmpty(initialWord);
      if blank {
        return false;
      }
      var word := initialWord;
      isLoading := true;
      expanded := {};
      var root := Node(ToLower(word), word, 0, None);
      var newNodes, newLinks := AppendChildren([root], root, related, suffixes);
      nodes := newNodes;
      links := newLinks;
      history := [word];
      expanded := expanded + {root.id};
      isLoading := false;
      initialWord := "";
      started := true;
      assert root == RootNode(word) && [] + newLinks == newLinks;
      assert Graph(nodes, links) == Seeded(word, related, suffixes);
      if FreshIds([ToLower(word)], ChildIds(related, suffixes)) {
        SeededWellFormed(word, related, suffixes);
        assert Ids(nodes)[0] == root.id;
      }
    }

    /**
     * The synchronous half of a click on `clicked`: the click is accepted only when no
     * request is out and the node has not been expanded, and then a request goes out.
     */
    method BeginExpand(clicked: Node) returns (accepted: bool)
      modifies this`isLoading
      ensures accepted <==> !old(isLoading) && clicked.id !in expanded
      ensures isLoading == (old(isLoading) || accepted)
      ensures Valid() == old(Valid())
    {
      if isLoading || clicked.id in expanded {
        return false;
      }
      isLoading := true;
      accepted := true;
    }

    /**
     * The half of a click that runs when the service has answered with `related`: one
     * child of `clicked` per word, each one level below it and linked from it, appended
     * after the existing nodes and links; then the path, the expanded set and the loading
     * flag are updated.
     */
    method CompleteExpand(clicked: Node, related: seq<string>, suffixes: seq<string>)
      requires |suffixes| == |related|
      modifies this
      ensures Graph(nodes, links) == Grow(Graph(old(nodes), old(links)), clicked, related, suffixes)
      ensures history == old(history) + [clicked.word]
      ensures expanded == old(expanded) + {clicked.id}
      ensures !isLoading && initialWord == old(initialWord)
      ensures (old(Valid()) && clicked in old(nodes) &&
               FreshIds(Ids(old(nodes)), ChildIds(related, suffixes))) ==> Valid()
    {
      ghost var before := Graph(nodes, links);
      var newNodes, newLinks := AppendChildren(nodes, clicked, related, suffixes);
      nodes := newNodes;
      links := links + newLinks;
      history := history + [clicked.word];
      expanded := expanded + {clicked.id};
      isLoading := false;
      if WellFormed(before) && (forall id :: id in old(expanded) ==> id in Ids(before.nodes)) &&
         clicked in before.nodes && FreshIds(Ids(before.nodes), ChildIds(related, suffixes))
      {
        GrowWellFormed(before, clicked, related, suffixes);
        forall id | id in expanded ensures id in Ids(nodes) {
          var p :| 0 <= p < |before.nodes| && (id == Ids(before.nodes)[p] || id == clicked.id);
          if id == clicked.id {
            var q :| 0 <= q < |before.nodes| && before.nodes[q] == clicked;
            assert Ids(nodes)[q] == id;
          } else {
            assert Ids(nodes)[p] == id;
          }
        }
      }
    }

    /** The reset button: the map, the path and the expanded set are emptied. */
    method Reset()
      modifies this`nodes, this`links, this`history, this`expanded
      ensures nodes == [] && links == [] && history == [] && expanded == {}
      ensures isLoading == old(isLoading) && initialWord == old(initialWord)
      ensures Valid()
    {
      nodes, links, history := [], [], [];
      expanded := {};
    }
  }

  /**
   * The loop both a new search and an expansion run: one child of `parent` per related
   * word is pushed after `prefix`, and one link from `parent` to each child is collected.
   */
  method AppendChildren(prefix: seq<Node>, parent: Node, related: seq<string>, suffixes: seq<string>)
    returns (newNodes: seq<Node>, newLinks: seq<Link>)
    requires |suffixes| == |related|
    ensures newNodes == prefix + Children(parent, related, suffixes)
    ensures newLinks == ParentLinks(parent, Children(parent, related, suffixes))
  {
    newNodes := prefix;
    newLinks := [];
    var i := 0;
    while i < |related|
      invariant 0 <= i <= |related|
      invariant |newNodes| == |prefix| + i && newNodes[..|prefix|] == prefix
      invariant forall k :: 0 <= k < i ==>
        newNodes[|prefix| + k] == ChildNode(parent, related[k], suffixes[k])
      invariant |newLinks| == i
      invariant forall k :: 0 <= k < i ==> newLinks[k] == Link(parent.id, newNodes[|prefix| + k].id)
    {
      var nodeId := ToLower(related[i]) + "-" + suffixes[i];
      var newNode := Node(nodeId, related[i], parent.depth + 1, Some(parent.id));
      newNodes := newNodes + [newNode];
      newLinks := newLinks + [Link(parent.id, newNode.id)];
      i := i + 1;
    }
  }

  /**
   * Two clicks, on the same node or on different ones, before the first request has been
   * answered: at most one of them sends a request.
   */
  method ClickTwice(app: MindMapApp, first: Node, second: Node) returns (accepted1: bool, accepted2: bool)
    modifies app
    ensures accepted1 <==> !old(app.isLoading) && first.id !in old(app.expanded)
    ensures !(accepted1 && accepted2)
    ensures app.isLoading == (old(app.isLoading) || accepted1 || accepted2)
  {
    accepted1 := app.BeginExpand(first);
    accepted2 := app.BeginExpand(second);
  }

  /**
   * A session: search for "Ocean" (the service answers Wave, Coral, Salt), then click
   * "Wave" (the service answers Tide, Surf).
   */
  method OceanSession() returns (app: MindMapApp)
    ensures |app.nodes| == 6 && |app.links| == 5
    ensures app.nodes[1].word == "Wave" && app.nodes[1].depth == 1
    ensures app.nodes[4].word == "Tide" && app.nodes[4].depth == 2
    ensures app.nodes[4].parentId == Some(app.nodes[1].id)
    ensures app.history == ["Ocean", "Wave"]
    ensures app.nodes[1].id in app.expanded && !app.isLoading
    ensures app.Valid()
  {
    app := OceanSearch();
    var wave := app.nodes[1];
    var accepted := app.BeginExpand(wave);
    assert accepted;
    OceanExpandIds();
    app.CompleteExpand(wave, ["Tide", "Surf"], ["d4", "e5"]);
    assert app.nodes[4] == Children(wave, ["Tide", "Surf"], ["d4", "e5"])[0];
  }

  /** The first half of the session: the search for "Ocean". */
  method OceanSearch() returns (app: MindMapApp)
    ensures fresh(app) && app.Valid() && !app.isLoading && app.expanded == {"ocean"}
    ensures |app.nodes| == 4 && |app.links| == 3 && app.history == ["Ocean"]
    ensures app.nodes[1] == Node("wave-a1", "Wave", 1, Some("ocean"))
    ensures Ids(app.nodes) == ["ocean", "wave-a1", "coral-b2", "salt-c3"]
  {
    app := new MindMapApp();
    app.SetInitialWord("Ocean");
    assert !IsWhitespace("Ocean"[0]);
    var started := app.StartGame(["Wave", "Coral", "Salt"], ["a1", "b2", "c3"]);
    OceanSeeded();
  }

  /** The map the search for "Ocean" builds. */
  lemma OceanSeeded()
    ensures ToLower("Ocean") == "ocean"
    ensures FreshIds([ToLower("Ocean")], ChildIds(["Wave", "Coral", "Salt"], ["a1", "b2", "c3"]))
    ensures Ids(Seeded("Ocean", ["Wave", "Coral", "Salt"], ["a1", "b2", "c3"]).nodes) ==
      ["ocean", "wave-a1", "coral-b2", "salt-c3"]
    ensures Seeded("Ocean", ["Wave", "Coral", "Salt"], ["a1", "b2", "c3"]).nodes[1] ==
      Node("wave-a1", "Wave", 1, Some("ocean"))
  {
    OceanSeedIds();
    SeededIds("Ocean", ["Wave", "Coral", "Salt"], ["a1", "b2", "c3"]);
    assert Seeded("Ocean", ["Wave", "Coral", "Salt"], ["a1", "b2", "c3"]).nodes[1] ==
      Children(RootNode("Ocean"), ["Wave", "Coral", "Salt"], ["a1", "b2", "c3"])[0];
  }

  /** The ids the session's first answer receives. */
  lemma OceanSeedIds()
    ensures ToLower("Ocean") == "ocean"
    ensures ChildIds(["Wave", "Coral", "Salt"], ["a1", "b2", "c3"]) == ["wave-a1", "coral-b2", "salt-c3"]
    ensures FreshIds([ToLower("Ocean")], ChildIds(["Wave", "Coral", "Salt"], ["a1", "b2", "c3"]))
  {
    OceanChildIds();
    var ids := ChildIds(["Wave", "Coral", "Salt"], ["a1", "b2", "c3"]);
    assert ids[0] == ChildId("Wave", "a1") && ids[1] == ChildId("Coral", "b2");
    assert ids[2] == ChildId("Salt", "c3");
  }

  lemma OceanChildIds()
    ensures ChildId("Wave", "a1") == "wave-a1" && ChildId("Coral", "b2") == "coral-b2"
    ensures ChildId("Salt", "c3") == "salt-c3"
  {
    assert ToLower("Wave") == "wave" && ToLower("Coral") == "coral" && ToLower("Salt") == "salt";
  }

  /** The ids the session's second answer receives. */
  lemma OceanExpandIds()
    ensures ChildIds(["Tide", "Surf"], ["d4", "e5"]) == ["tide-d4", "surf-e5"]
    ensures FreshIds(["ocean", "wave-a1", "coral-b2", "salt-c3"], ChildIds(["Tide", "Surf"], ["d4", "e5"]))
  {
    assert ToLower("Tide") == "tide" && ToLower("Surf") == "surf";
    assert ChildId("Tide", "d4") == "tide-d4" && ChildId("Surf", "e5") == "surf-e5";
    var ids := ChildIds(["Tide", "Surf"], ["d4", "e5"]);
    assert ids[0] == ChildId("Tide", "d4") && ids[1] == ChildId("Surf", "e5");
  }
}
