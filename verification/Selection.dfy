/** Choosing the neighbor to forward to: a best trial per neighbor, then the best of those. */
module Selection {
  /** A plausible route, tried: its neighbor, when it would deliver, over how many hops, and
      when it shuts down. */
  datatype Trial = Trial(neighborNodeNbr: nat, arrivalTime: int, hopCount: nat, forfeitTime: int)

  datatype ProximateNode = ProximateNode(
    neighborNodeNbr: nat, forfeitTime: int, arrivalTime: int, overbooked: int, protected: int, hopCount: nat)
  {
    function Attempt(): Trial {
      Trial(neighborNodeNbr, arrivalTime, hopCount, forfeitTime)
    }
  }

  /** Earlier, or as early over fewer hops. */
  predicate Better(a: Trial, b: Trial) {
    a.arrivalTime < b.arrivalTime || (a.arrivalTime == b.arrivalTime && a.hopCount < b.hopCount)
  }

  /** Better, or as good by way of a lower-numbered neighbor. */
  predicate Preferred(a: Trial, b: Trial) {
    || Better(a, b)
    || (a.arrivalTime == b.arrivalTime && a.hopCount == b.hopCount && a.neighborNodeNbr < b.neighborNodeNbr)
  }

  ghost predicate DistinctNeighbors(nodes: seq<ProximateNode>) {
    forall i, j :: 0 <= i < j < |nodes| ==> nodes[i].neighborNodeNbr != nodes[j].neighborNodeNbr
  }

  ghost predicate FromTrials(nodes: seq<ProximateNode>, trials: seq<Trial>) {
    forall i :: 0 <= i < |nodes| ==> nodes[i].Attempt() in trials
  }

  ghost predicate Matched(nodes: seq<ProximateNode>, t: Trial) {
    exists i :: 0 <= i < |nodes| && nodes[i].neighborNodeNbr == t.neighborNodeNbr && !Better(t, nodes[i].Attempt())
  }

  ghost predicate AllMatched(nodes: seq<ProximateNode>, trials: seq<Trial>) {
    forall t :: t in trials ==> Matched(nodes, t)
  }

  /** The nodes are the neighbors of the trials, each with a best one of its own. */
  ghost predicate Represents(nodes: seq<ProximateNode>, trials: seq<Trial>) {
    DistinctNeighbors(nodes) && FromTrials(nodes, trials) && AllMatched(nodes, trials)
  }

  lemma StillMatched(nodes: seq<ProximateNode>, i: nat, node: ProximateNode, t: Trial)
    requires Matched(nodes, t) && i < |nodes| && nodes[i].neighborNodeNbr == node.neighborNodeNbr
    requires Better(node.Attempt(), nodes[i].Attempt())
    ensures Matched(nodes[i := node], t)
  {
    var j :| 0 <= j < |nodes| && nodes[j].neighborNodeNbr == t.neighborNodeNbr && !Better(t, nodes[j].Attempt());
    assert nodes[i := node][j].neighborNodeNbr == t.neighborNodeNbr;
  }

  lemma BetterRoute(nodes: seq<ProximateNode>, trials: seq<Trial>, i: nat, node: ProximateNode)
    requires Represents(nodes, trials) && i < |nodes| && nodes[i].neighborNodeNbr == node.neighborNodeNbr
    requires Better(node.Attempt(), nodes[i].Attempt())
    ensures Represents(nodes[i := node], trials + [node.Attempt()])
  {
    var nodes', trials' := nodes[i := node], trials + [node.Attempt()];
    forall t | t in trials'
      ensures Matched(nodes', t)
    {
      if t in trials {
        StillMatched(nodes, i, node, t);
      } else {
        assert nodes'[i].neighborNodeNbr == t.neighborNodeNbr;
      }
    }
    forall j | 0 <= j < |nodes'|
      ensures nodes'[j].Attempt() in trials'
    {
      assert j != i ==> nodes[j].Attempt() in trials;
    }
  }

  lemma KnownNeighbor(nodes: seq<ProximateNode>, trials: seq<Trial>, i: nat, node: ProximateNode)
    requires Represents(nodes, trials) && i < |nodes| && nodes[i].neighborNodeNbr == node.neighborNodeNbr
    ensures Represents(if Better(node.Attempt(), nodes[i].Attempt()) then nodes[i := node] else nodes, trials + [node.Attempt()])
  {
    if Better(node.Attempt(), nodes[i].Attempt()) {
      BetterRoute(nodes, trials, i, node);
    } else {
      assert Matched(nodes, node.Attempt());
    }
  }

  lemma NewNeighbor(nodes: seq<ProximateNode>, trials: seq<Trial>, node: ProximateNode)
    requires Represents(nodes, trials)
    requires forall i :: 0 <= i < |nodes| ==> nodes[i].neighborNodeNbr != node.neighborNodeNbr
    ensures Represents(nodes + [node], trials + [node.Attempt()])
  {
    forall t | t in trials + [node.Attempt()]
      ensures Matched(nodes + [node], t)
    {
      if t in trials {
        var j :| 0 <= j < |nodes| && nodes[j].neighborNodeNbr == t.neighborNodeNbr && !Better(t, nodes[j].Attempt());
        assert (nodes + [node])[j] == nodes[j];
      } else {
        assert (nodes + [node])[|nodes|] == node;
      }
    }
  }

  /** A trial that no other is preferred to. */
  ghost predicate Minimal(t: Trial, trials: seq<Trial>) {
    t in trials && forall u :: u in trials ==> !Preferred(u, t)
  }

  ghost predicate SelectedFrom(nodes: seq<ProximateNode>, n: nat, selected: nat) {
    selected < n <= |nodes| && forall i :: 0 <= i < n ==> !Preferred(nodes[i].Attempt(), nodes[selected].Attempt())
  }

  lemma SelectionStep(nodes: seq<ProximateNode>, n: nat, selected: nat)
    requires SelectedFrom(nodes, n, selected) && n < |nodes|
    ensures SelectedFrom(nodes, n + 1, if Preferred(nodes[n].Attempt(), nodes[selected].Attempt()) then n else selected)
  {
  }

  /** The best of the neighbors' best trials is the best of all. */
  lemma SelectedIsMinimal(nodes: seq<ProximateNode>, trials: seq<Trial>, selected: nat)
    requires Represents(nodes, trials) && SelectedFrom(nodes, |nodes|, selected)
    ensures Minimal(nodes[selected].Attempt(), trials)
  {
    forall u | u in trials
      ensures !Preferred(u, nodes[selected].Attempt())
    {
      assert Matched(nodes, u);
      var i :| 0 <= i < |nodes| && nodes[i].neighborNodeNbr == u.neighborNodeNbr && !Better(u, nodes[i].Attempt());
      assert !Preferred(nodes[i].Attempt(), nodes[selected].Attempt());
    }
  }

  /** The choice depends only on which routes were tried, and neither on their order nor on
      whether some were tried again. */
  lemma SelectionUnique(t: Trial, trials: seq<Trial>, u: Trial, others: seq<Trial>)
    requires Minimal(t, trials) && Minimal(u, others) && forall x :: x in trials <==> x in others
    ensures t.neighborNodeNbr == u.neighborNodeNbr && t.arrivalTime == u.arrivalTime && t.hopCount == u.hopCount
  {
    assert t in others && u in trials;
  }

  lemma NothingSelected(nodes: seq<ProximateNode>, trials: seq<Trial>)
    requires Represents(nodes, trials)
    ensures nodes == [] <==> trials == []
  {
    assert trials != [] ==> trials[0] in trials && Matched(nodes, trials[0]);
    assert nodes != [] ==> nodes[0].Attempt() in trials;
  }
}
