/** How the two operator variants relate: on an inventory where every node
    carries a label map and no needed patch fails they do exactly the same
    thing; a failing patch or an absent label map is where they part. */
module Variants {
  import opened Kube
  import B = BinpackOperator
  import O = Operator

  /** Every node of the inventory carries a label map. */
  ghost predicate Labelled(nodes: seq<Node>)
  {
    forall i :: 0 <= i < |nodes| ==> nodes[i].labels.Some?
  }

  /** No node that needs a patch is among those whose patch fails. */
  ghost predicate PatchesSucceed(nodes: seq<Node>, failing: set<string>)
  {
    forall i :: 0 <= i < |nodes| ==> !(B.NeedsPatch(nodes[i]) && nodes[i].name in failing)
  }

  /** On a node with a label map, `labels or {}` and `labels` are the same map,
      `.get(k) == "true"` and `k in labels and labels[k] == "true"` the same
      test, and the two variants build the same patch. */
  lemma SameNodeDecision(n: Node)
    requires n.labels.Some?
    ensures O.IsGpuNode(n) <==> B.IsGpuNode(n)
    ensures O.NeedsPatch(n) <==> B.NeedsPatch(n)
    ensures B.NeedsPatch(n) ==> O.PatchFor(n) == B.PatchFor(n)
    ensures O.Stamped(n) == B.Stamped(n, {})
  {
  }

  /** Both variants return the same names and issue the same patch calls on
      an inventory in which every node carries a label map. */
  lemma {:induction false} AgreeOnLabelledInventory(nodes: seq<Node>)
    requires Labelled(nodes)
    ensures O.Eligible(nodes) == B.Eligible(nodes)
    ensures O.PatchRequests(nodes) == B.PatchRequests(nodes)
  {
    if nodes != [] {
      SameNodeDecision(nodes[0]);
      assert Labelled(nodes[1..]) by {
        forall i | 0 <= i < |nodes[1..]|
          ensures nodes[1..][i].labels.Some?
        {
          assert nodes[1..][i] == nodes[i + 1];
        }
      }
      AgreeOnLabelledInventory(nodes[1..]);
    }
  }

  /** When every node is labelled and every needed patch succeeds, the
      `operator.py` pass gets through the inventory and both variants end
      with the same result, the same patch log and the same node labels. */
  lemma SameOutcomeWithoutFaults(nodes: seq<Node>, failing: set<string>)
    requires Labelled(nodes) && PatchesSucceed(nodes, failing)
    ensures O.Halt(nodes, failing) == |nodes|
    ensures O.ClassifyResult(nodes, failing) == Success(B.Eligible(nodes))
    ensures O.IssuedPatches(nodes, failing) == B.PatchRequests(nodes)
    ensures O.Midway(nodes, O.Halt(nodes, failing)) == B.StampAll(nodes, failing)
  {
    forall i | 0 <= i < |nodes|
      ensures O.NeedsPatch(nodes[i]) <==> B.NeedsPatch(nodes[i])
      ensures O.Stamped(nodes[i]) == B.Stamped(nodes[i], failing)
    {
      SameNodeDecision(nodes[i]);
    }
    O.PassCompletes(nodes, failing);
    AgreeOnLabelledInventory(nodes);
    O.MidwayClosedForm(nodes, |nodes|);
    assert nodes[..|nodes|] == nodes;
    assert O.Midway(nodes, |nodes|) == B.StampAll(nodes, failing);
  }

  /** A patch that fails: `binpack_operator.py` still returns every
      eligible name, that node's included, while `operator.py` raises at
      that node or earlier. */
  lemma PatchFailureDivergence(nodes: seq<Node>, failing: set<string>, i: nat)
    requires i < |nodes|
    requires B.NeedsPatch(nodes[i]) && nodes[i].name in failing
    ensures nodes[i].name in B.Eligible(nodes)
    ensures O.ClassifyResult(nodes, failing).Failure?
    ensures O.Halt(nodes, failing) <= i
  {
    SameNodeDecision(nodes[i]);
    B.EligibleMembership(nodes, nodes[i].name);
    O.AbortStopsPass(nodes, failing, i);
    O.HaltSpec(nodes, failing);
  }

  /** A node without a label map: `binpack_operator.py` passes over it as if
      it were not there, while `operator.py` raises at that node or earlier. */
  lemma UnlabelledDivergence(nodes: seq<Node>, failing: set<string>, i: nat)
    requires i < |nodes| && nodes[i].labels.None?
    ensures B.Eligible(nodes) == B.Eligible(nodes[..i] + nodes[i + 1..])
    ensures B.PatchRequests(nodes) == B.PatchRequests(nodes[..i] + nodes[i + 1..])
    ensures O.ClassifyResult(nodes, failing).Failure?
    ensures O.Halt(nodes, failing) <= i
  {
    B.BareNodeNotEligible(nodes, i);
    B.BareNodeNotPatched(nodes, i);
    O.AbortStopsPass(nodes, failing, i);
    O.HaltSpec(nodes, failing);
  }
}
