/**
  Clients of RankTieredOrchestator that replay the dispatch loop on small
  inputs, using only the contracts of its operations.
 */
module Scenarios {
  import opened Wrappers
  import opened NodeRank
  import opened Orchestrator

  function Ranked(name: string, rank: string): Node
  {
    Node(Some(map["nodename" := name, "rank" := rank]))
  }

  /**
    Serves one tier of two nodes from an idle orchestrator: both go out at
    once, the node after them is held back (repeatedly, and still after one
    of the two comes back), and the orchestrator is idle again once both are
    returned, in either order.
   */
  method ServeTwoNodeTier(o: RankTieredOrchestator, x: Node, y: Node, next: seq<Node>)
    requires o.Valid() && o.count == 0 && o.list == [x, y] + next
    requires RankValue(x, o.rankAttribute) == RankValue(y, o.rankAttribute)
    requires next != [] ==> RankValue(next[0], o.rankAttribute) != RankValue(y, o.rankAttribute)
    modifies o
    ensures o.Valid() && o.count == 0 && o.list == next
  {
    var r := o.NextNode();
    assert r == Some(x);
    r := o.NextNode();
    assert r == Some(y);
    r := o.NextNode();
    assert r == None;
    r := o.NextNode();
    assert r == None;
    o.ReturnNode(y, true);
    r := o.NextNode();
    assert r == None;
    o.ReturnNode(x, false);
  }

  /** Ranks 1, 1, 2, 2, 3: each tier goes out in full, and waits until the
      one before it has been returned in full. */
  method TieringScenario()
  {
    var a, b, c, d, e := Ranked("a", "1"), Ranked("b", "1"), Ranked("c", "2"), Ranked("d", "2"), Ranked("e", "3");
    assert RankValue(a, "rank") == RankValue(b, "rank") == Some("1");
    assert RankValue(c, "rank") == RankValue(d, "rank") == Some("2");
    assert RankValue(e, "rank") == Some("3");
    var o := new RankTieredOrchestator(Some("rank"), [a, b, c, d, e]);
    assert !o.IsComplete();

    ServeTwoNodeTier(o, a, b, [c, d, e]);
    ServeTwoNodeTier(o, c, d, [e]);

    var r := o.NextNode();
    assert r == Some(e);
    assert !o.IsComplete();
    r := o.NextNode();
    assert r == None;
    o.ReturnNode(e, true);
    assert o.IsComplete();
  }

  /**
    A node with a rank value, then two without one (one with no attribute
    map at all): the absent-value nodes wait until the ranked node is back,
    and then go out together as one tier.
   */
  method AbsentRankScenario()
  {
    var a, b, c := Ranked("a", "1"), Node(None), Node(Some(map["nodename" := "c"]));
    assert RankValue(a, "rank") == Some("1");
    assert RankValue(b, "rank") == RankValue(c, "rank") == None;
    var o := new RankTieredOrchestator(Some("rank"), [a, b, c]);
    var r := o.NextNode();
    assert r == Some(a);
    r := o.NextNode();
    assert r == None;
    o.ReturnNode(a, true);
    r := o.NextNode();
    assert r == Some(b);
    r := o.NextNode();
    assert r == Some(c);
    o.ReturnNode(c, true);
    o.ReturnNode(b, true);
    assert o.IsComplete();
  }

  /** With no nodes the orchestrator is complete at once and hands out nothing. */
  method EmptyScenario()
  {
    var o := new RankTieredOrchestator(None, []);
    assert o.IsComplete();
    var r := o.NextNode();
    assert r == None;
    assert o.IsComplete();
  }
}
