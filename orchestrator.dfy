/**
  RankTieredOrchestator: hands out nodes from an already rank-ordered list,
  releasing the next rank tier only once every node of the current tier has
  been returned.
 */
module Orchestrator {
  import opened Wrappers
  import opened NodeRank

  /** The attribute ranked by when the execution context names none. */
  const DefaultRankAttribute: string := "nodename"

  /** The pending list is the initial list minus what has been handed out, in order:
      it only loses its head and never gets a node back. */
  ghost predicate ListOnlyShrinks(initial: seq<Node>, dispatched: seq<Node>, list: seq<Node>)
  {
    initial == dispatched + list
  }

  /** `count` is hand-outs minus returns, which is the number of nodes in flight. */
  ghost predicate CountAccounting(count: int, dispatched: seq<Node>, returned: nat, inFlight: multiset<Node>)
  {
    && returned <= |dispatched|
    && count == |dispatched| - returned
    && count == |inFlight|
    && (forall n :: n in inFlight ==> n in dispatched)
  }

  /** The previous node is the last one handed out, and None before the first. */
  ghost predicate LastHandedOut(previousNode: Option<Node>, dispatched: seq<Node>)
  {
    && (previousNode.Some? <==> dispatched != [])
    && (previousNode.Some? ==> previousNode.value == dispatched[|dispatched| - 1])
  }

  /** Every node of `tier` has the rank value of `previousNode`. */
  ghost predicate SharesRank(tier: seq<Node>, previousNode: Option<Node>, attribute: string)
  {
    forall i :: 0 <= i < |tier| ==>
      previousNode.Some? && RankValue(tier[i], attribute) == RankValue(previousNode.value, attribute)
  }

  /** The current tier (the hand-outs since `count` was last 0, as NextNode and
      ReturnNode maintain it) holds every in-flight node, and all of it has the
      rank value of `previousNode`. */
  ghost predicate CurrentTier(tier: seq<Node>, inFlight: multiset<Node>, count: int,
                              previousNode: Option<Node>, attribute: string)
  {
    && (count == 0 ==> tier == [])
    && (forall n :: n in inFlight ==> n in tier)
    && SharesRank(tier, previousNode, attribute)
  }

  /**
    The gate of nextNode: `head` may be handed out when nothing is in flight,
    when nothing was handed out before, or when it ties with the previous node,
    that is, when it belongs to the tier now in flight.
   */
  function Admits(attribute: string, count: int, previousNode: Option<Node>, head: Node): (ok: bool)
    ensures ok <==> count == 0 || previousNode.None? ||
                    RankValue(head, attribute) == RankValue(previousNode.value, attribute)
  {
    count == 0 || previousNode.None? || Compare(attribute, previousNode.value, head) == 0
  }

  /** Handing out `node` keeps the accounting and the tier consistent. */
  lemma DispatchPreserves(attribute: string, initial: seq<Node>, list: seq<Node>, previousNode: Option<Node>,
                          count: int, dispatched: seq<Node>, returned: nat, inFlight: multiset<Node>, tier: seq<Node>)
    requires list != []
    requires ListOnlyShrinks(initial, dispatched, list)
    requires CountAccounting(count, dispatched, returned, inFlight)
    requires LastHandedOut(previousNode, dispatched)
    requires CurrentTier(tier, inFlight, count, previousNode, attribute)
    requires Admits(attribute, count, previousNode, list[0])
    ensures ListOnlyShrinks(initial, dispatched + [list[0]], list[1..])
    ensures CountAccounting(count + 1, dispatched + [list[0]], returned, inFlight + multiset{list[0]})
    ensures LastHandedOut(Some(list[0]), dispatched + [list[0]])
    ensures CurrentTier(tier + [list[0]], inFlight + multiset{list[0]}, count + 1,
                        Some(list[0]), attribute)
  {
  }

  /** Returning an in-flight `node` keeps the accounting and the tier consistent;
      the tier closes when the last in-flight node comes back. */
  lemma ReturnPreserves(attribute: string, previousNode: Option<Node>, count: int, dispatched: seq<Node>,
                        returned: nat, inFlight: multiset<Node>, tier: seq<Node>, node: Node)
    requires CountAccounting(count, dispatched, returned, inFlight)
    requires CurrentTier(tier, inFlight, count, previousNode, attribute)
    requires node in inFlight
    ensures CountAccounting(count - 1, dispatched, returned + 1, inFlight - multiset{node})
    ensures CurrentTier(if count - 1 == 0 then [] else tier, inFlight - multiset{node}, count - 1,
                        previousNode, attribute)
  {
  }

  class RankTieredOrchestator {
    /** Nodes not yet handed out, in rank order. */
    var list: seq<Node>
    /** The node handed out last, None before the first hand-out. */
    var previousNode: Option<Node>
    /** The attribute the tier comparator reads. */
    const rankAttribute: string
    /** Nodes handed out and not yet returned. */
    var count: int

    // Ghost bookkeeping: the history the fields summarise.
    /** The list as built at construction. */
    ghost var initial: seq<Node>
    /** Every node handed out so far, in order. */
    ghost var dispatched: seq<Node>
    /** How many returns there have been. */
    ghost var returned: nat
    /** The nodes handed out and not yet returned. */
    ghost var inFlight: multiset<Node>
    /** The nodes handed out since `count` was last 0: the current tier. */
    ghost var tier: seq<Node>

    ghost predicate Valid()
      reads this
    {
      && ListOnlyShrinks(initial, dispatched, list)
      && CountAccounting(count, dispatched, returned, inFlight)
      && LastHandedOut(previousNode, dispatched)
      && CurrentTier(tier, inFlight, count, previousNode, rankAttribute)
    }

    constructor (configuredRankAttribute: Option<string>, ordered: seq<Node>)
      ensures Valid()
      ensures rankAttribute == if configuredRankAttribute.Some? then configuredRankAttribute.value else DefaultRankAttribute
      ensures list == ordered && count == 0 && previousNode == None
      ensures initial == ordered && dispatched == [] && returned == 0 && inFlight == multiset{} && tier == []
    {
      rankAttribute := if configuredRankAttribute.Some? then configuredRankAttribute.value else DefaultRankAttribute;
      list := ordered;
      previousNode := None;
      count := 0;
      initial := ordered;
      dispatched := [];
      returned := 0;
      inFlight := multiset{};
      tier := [];
    }

    /**
      Hands out the head of the list when the gate admits it; otherwise
      (empty list, or the head opens a new tier while the current one is
      still in flight) answers None and changes nothing.
     */
    method NextNode() returns (r: Option<Node>)
      requires Valid()
      modifies this
      ensures Valid()
      ensures old(list) == [] ==> r == None
      ensures r.Some? <==> old(list) != [] && old(Admits(rankAttribute, count, previousNode, list[0]))
      ensures old(count) == 0 && old(list) != [] ==> r.Some?
      ensures r.None? ==> unchanged(this)
      ensures r.Some? ==>
        && r.value == old(list)[0]
        && list == old(list)[1..]
        && count == old(count) + 1
        && previousNode == r
        && dispatched == old(dispatched) + [r.value]
        && returned == old(returned)
        && inFlight == old(inFlight) + multiset{r.value}
        && tier == old(tier) + [r.value]
      // a node handed out while others are in flight has their rank value
      ensures r.Some? && old(count) > 0 ==>
        forall n :: n in old(inFlight) ==> RankValue(n, rankAttribute) == RankValue(r.value, rankAttribute)
    {
      if |list| < 1 {
        return None;
      }
      var node := list[0];
      if Admits(rankAttribute, count, previousNode, node) {
        DispatchPreserves(rankAttribute, initial, list, previousNode, count, dispatched, returned, inFlight, tier);
        previousNode := Some(node);
        count := count + 1;
        list := list[1..];
        dispatched := dispatched + [node];
        inFlight := inFlight + multiset{node};
        tier := tier + [node];
        InFlightInOneTier();
        return Some(node);
      } else {
        return None;
      }
    }

    /**
      Frees one in-flight slot. The node and its outcome play no part; the
      caller must return each handed-out node exactly once, which the ghost
      precondition `node in inFlight` states.
     */
    method ReturnNode(node: Node, success: bool)
      requires Valid()
      requires node in inFlight
      modifies this
      ensures Valid()
      ensures count == old(count) - 1
      ensures list == old(list) && previousNode == old(previousNode)
      ensures dispatched == old(dispatched) && returned == old(returned) + 1
      ensures inFlight == old(inFlight) - multiset{node}
      ensures tier == if count == 0 then [] else old(tier)
    {
      ReturnPreserves(rankAttribute, previousNode, count, dispatched, returned, inFlight, tier, node);
      count := count - 1;
      returned := returned + 1;
      inFlight := inFlight - multiset{node};
      tier := if count == 0 then [] else tier;
    }

    /** All work is done: every node has been handed out and returned. */
    function IsComplete(): (r: bool)
      reads this
      requires Valid()
      ensures r <==> dispatched == initial && inFlight == multiset{}
    {
      |list| == 0 && count == 0
    }

    /** Every in-flight node has the rank value of previousNode. */
    lemma InFlightInOneTier()
      requires Valid()
      ensures count >= 0
      ensures count > 0 ==> previousNode.Some?
      ensures forall n :: n in inFlight ==>
        previousNode.Some? && RankValue(n, rankAttribute) == RankValue(previousNode.value, rankAttribute)
    {
    }
  }
}
